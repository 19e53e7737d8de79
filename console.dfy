/** The console front end: the `.mp4` test, the capture of the transcoder's
    standard output through a pipe (convertToH265_Pipe), and the order in which
    `main` checks its inputs, picks the bytes to parse and chooses its exit
    code. The transcoder is not run: what popen, fread and pclose report is
    given as a PipeRun. */
module Console {
  import opened Common

  /** The size of the scratch buffer each fread fills: 4096 bytes. */
  const ChunkSize: nat := 4096

  /** isMp4: the last four characters are ".mp4" or ".MP4"; paths shorter
      than four characters are not. */
  function IsMp4(path: string): (r: bool)
    ensures r <==> EndsWith(path, ".mp4") || EndsWith(path, ".MP4")
  {
    if |path| < 4 then false
    else
      var ext := path[|path| - 4..];
      ext == ".mp4" || ext == ".MP4"
  }

  /** Only the all-lower and all-upper spellings count: ".Mp4" does not. */
  lemma IsMp4Spellings(stem: string)
    ensures IsMp4(stem + ".mp4") && IsMp4(stem + ".MP4")
    ensures !IsMp4(stem + ".Mp4") && !IsMp4(stem + ".mP4")
  {
    var lower, upper := stem + ".mp4", stem + ".MP4";
    assert lower[|lower| - 4..] == ".mp4";
    assert upper[|upper| - 4..] == ".MP4";
    var mixed1, mixed2 := stem + ".Mp4", stem + ".mP4";
    assert mixed1[|mixed1| - 4..] == ".Mp4";
    assert mixed2[|mixed2| - 4..] == ".mP4";
  }

  /** What running the transcoder through a pipe reported: whether popen
      returned a stream, what each fread returned in turn (nothing after the
      last one: end of stream), and the code pclose returned. */
  datatype PipeRun = PipeRun(launched: bool, chunks: seq<seq<uint8>>, closeCode: int)

  /** fread never returns more than the scratch buffer holds. */
  ghost predicate ReadsFit(pipe: PipeRun)
  {
    forall i :: 0 <= i < |pipe.chunks| ==> |pipe.chunks[i]| <= ChunkSize
  }

  /** The bytes of the `i`-th fread. */
  function ReadNo(chunks: seq<seq<uint8>>, i: nat): seq<uint8>
  {
    if i < |chunks| then chunks[i] else []
  }

  /** Everything the pipe produced, in order. */
  function Concat(chunks: seq<seq<uint8>>): seq<uint8>
  {
    if chunks == [] then [] else chunks[0] + Concat(chunks[1..])
  }

  /** What the capture loop keeps: the chunks in order, up to the first one
      that returned nothing. */
  function Captured(chunks: seq<seq<uint8>>): seq<uint8>
  {
    if chunks == [] || chunks[0] == [] then [] else chunks[0] + Captured(chunks[1..])
  }

  /** The loop stops at the first empty read: whatever follows it is never
      captured. */
  lemma {:induction false} CapturedStopsAtFirstEmpty(before: seq<seq<uint8>>, after: seq<seq<uint8>>)
    requires forall i :: 0 <= i < |before| ==> before[i] != []
    ensures Captured(before + [[]] + after) == Concat(before)
  {
    if before != [] {
      assert (before + [[]] + after)[1..] == before[1..] + [[]] + after;
      CapturedStopsAtFirstEmpty(before[1..], after);
    } else {
      assert (before + [[]] + after)[0] == [];
    }
  }

  /** The captured bytes are a prefix of everything the pipe produced, and
      all of it when no read came back empty. */
  lemma {:induction false} CapturedIsPrefix(chunks: seq<seq<uint8>>)
    ensures Captured(chunks) <= Concat(chunks)
    ensures (forall i :: 0 <= i < |chunks| ==> chunks[i] != []) ==> Captured(chunks) == Concat(chunks)
  {
    if chunks != [] {
      CapturedIsPrefix(chunks[1..]);
      if chunks[0] != [] {
        var c, a := Captured(chunks[1..]), Concat(chunks[1..]);
        assert c <= a;
        assert a == c + a[|c|..];
        assert chunks[0] + a == (chunks[0] + c) + a[|c|..];
      }
    }
  }

  /** No more bytes are captured than 4096 per read. */
  lemma {:induction false} CapturedBound(pipe: PipeRun)
    requires ReadsFit(pipe)
    ensures |Captured(pipe.chunks)| <= ChunkSize * |pipe.chunks|
    decreases |pipe.chunks|
  {
    if pipe.chunks != [] && pipe.chunks[0] != [] {
      CapturedBound(pipe.(chunks := pipe.chunks[1..]));
    }
  }

  /** Concatenating one more chunk appends its bytes. */
  lemma {:induction false} ConcatSnoc(chunks: seq<seq<uint8>>, i: nat)
    requires i < |chunks|
    ensures Concat(chunks[..i + 1]) == Concat(chunks[..i]) + chunks[i]
  {
    if i > 0 {
      assert chunks[..i + 1][1..] == chunks[1..][..i];
      assert chunks[..i][1..] == chunks[1..][..i - 1];
      ConcatSnoc(chunks[1..], i - 1);
    }
  }

  /** When the first `i` reads returned bytes and the next one returned none
      (or there was none), the capture is those `i` reads. */
  lemma {:induction false} CapturedUpTo(chunks: seq<seq<uint8>>, i: nat)
    requires i <= |chunks| && ReadNo(chunks, i) == []
    requires forall j :: 0 <= j < i ==> chunks[j] != []
    ensures Captured(chunks) == Concat(chunks[..i])
  {
    if i > 0 {
      assert chunks[..i][1..] == chunks[1..][..i - 1];
      CapturedUpTo(chunks[1..], i - 1);
    }
  }

  /** A std::vector<uint8_t> the caller owns and the capture fills in place. */
  class ByteVector {
    var bytes: seq<uint8>

    constructor ()
      ensures bytes == []
    {
      bytes := [];
    }
  }

  /** One fread into the scratch buffer: copies the `i`-th read's bytes to
      its front and returns how many there were. */
  method Fread(scratch: array<uint8>, pipe: PipeRun, i: nat) returns (bytesRead: nat)
    requires scratch.Length == ChunkSize && ReadsFit(pipe)
    modifies scratch
    ensures bytesRead == |ReadNo(pipe.chunks, i)| <= scratch.Length
    ensures scratch[..bytesRead] == ReadNo(pipe.chunks, i)
  {
    var chunk := ReadNo(pipe.chunks, i);
    bytesRead := |chunk|;
    forall j | 0 <= j < bytesRead {
      scratch[j] := chunk[j];
    }
  }

  /** convertToH265_Pipe. A failed popen returns false before the buffer is
      touched. Otherwise the buffer is cleared and then holds the captured
      chunks, and the result is true exactly when pclose returned 0 -- the
      captured bytes stay in the buffer when it did not. */
  method ConvertToH265Pipe(inputPath: string, outputBuffer: ByteVector, pipe: PipeRun)
    returns (ok: bool)
    requires ReadsFit(pipe)
    modifies outputBuffer
    ensures ok <==> pipe.launched && pipe.closeCode == 0
    ensures !pipe.launched ==> outputBuffer.bytes == old(outputBuffer.bytes)
    ensures pipe.launched ==> outputBuffer.bytes == Captured(pipe.chunks)
  {
    if !pipe.launched {
      return false;
    }
    var scratch := new uint8[ChunkSize];
    outputBuffer.bytes := [];
    var i: nat := 0;
    var bytesRead := Fread(scratch, pipe, i);
    while bytesRead > 0
      invariant i <= |pipe.chunks| && bytesRead == |ReadNo(pipe.chunks, i)|
      invariant scratch[..bytesRead] == ReadNo(pipe.chunks, i)
      invariant forall j :: 0 <= j < i ==> pipe.chunks[j] != []
      invariant outputBuffer.bytes == Concat(pipe.chunks[..i])
      decreases |pipe.chunks| - i
    {
      ConcatSnoc(pipe.chunks, i);
      outputBuffer.bytes := outputBuffer.bytes + scratch[..bytesRead];
      i := i + 1;
      bytesRead := Fread(scratch, pipe, i);
    }
    CapturedUpTo(pipe.chunks, i);
    ok := pipe.closeCode == 0;
  }

  /** The options as cxxopts leaves them: --help, --input, --output (only
      when given on the command line) and --altwriter. */
  datatype Args = Args(help: bool, input: Option<string>, output: Option<string>, altWriter: bool)

  /** Where the bytes handed to the parser come from. */
  datatype Source = Converted(bytes: seq<uint8>) | InputFile

  /** The one parser call `main` makes: the data and the length passed with it. */
  datatype Feed = Feed(source: Source, length: nat)

  /** Everything `main` learns from outside: the parsed options (None when
      cxxopts throws), whether the output file opens, the files on disk when it starts,
      the transcoder's pipe and whether the parser or the writer throws. */
  datatype Invocation = Invocation(args: Option<Args>, outputOpens: bool,
                                   disk: map<string, seq<uint8>>, pipe: PipeRun,
                                   ingestThrows: bool)

  /** The files as the input is opened: a requested output that opens has
      been created or truncated to nothing by then. */
  function DiskAtInput(inv: Invocation): map<string, seq<uint8>>
  {
    if inv.args.Some? && inv.args.value.output.Some? && inv.outputOpens then
      inv.disk[inv.args.value.output.value := []]
    else inv.disk
  }

  /** An output that names the input empties it before it is read. */
  lemma OutputOverInput(inv: Invocation)
    requires inv.args.Some? && inv.args.value.input.Some? && inv.outputOpens
    requires inv.args.value.output == inv.args.value.input
    ensures var path := inv.args.value.input.value;
      path in DiskAtInput(inv) && DiskAtInput(inv)[path] == []
  {
  }

  /** The invocation gets past every check before the input is read: the
      options parse, no help is asked for, an input is named, a requested
      output opens and the input opens. */
  predicate PassesChecks(inv: Invocation)
  {
    && inv.args.Some?
    && !inv.args.value.help
    && inv.args.value.input.Some?
    && (inv.args.value.output.None? || inv.outputOpens)
    && inv.args.value.input.value in DiskAtInput(inv)
  }

  /** main: the exit code and the parser call, if one is made. */
  method RunConsole(inv: Invocation) returns (exitCode: int, fed: Option<Feed>)
    requires ReadsFit(inv.pipe)
    ensures exitCode in {0, 1, 2, 3}
    ensures inv.args.None? ==> exitCode == 1
    ensures inv.args.Some? ==>
      var a := inv.args.value;
      && (a.help ==> exitCode == 0 && fed.None?)
      && (!a.help && a.input.None? ==> exitCode == 1)
      && (!a.help && a.input.Some? && a.output.Some? && !inv.outputOpens ==> exitCode == 2)
      && ((!a.help && a.input.Some? && (a.output.None? || inv.outputOpens)
           && a.input.value !in DiskAtInput(inv)) ==> exitCode == 2)
    ensures fed.Some? ==> PassesChecks(inv)
    ensures PassesChecks(inv) ==>
      var path := inv.args.value.input.value;
      var captured := if IsMp4(path) && inv.pipe.launched then Captured(inv.pipe.chunks) else [];
      && (fed.None? <==> captured == [] && |DiskAtInput(inv)[path]| == 0)
      && (fed.None? ==> exitCode == 3)
      && (fed.Some? ==>
            && fed.value.length == |DiskAtInput(inv)[path]|
            && fed.value.source == (if captured != [] then Converted(captured) else InputFile)
            && exitCode == (if inv.ingestThrows then 1 else 0))
  {
    fed := None;
    if inv.args.None? {
      return 1, None;
    }
    var args := inv.args.value;
    if args.help {
      return 0, None;
    }
    if args.input.None? {
      return 1, None;
    }
    var disk := inv.disk;
    if args.output.Some? {
      if !inv.outputOpens {
        return 2, None;
      }
      // Opening the output for writing creates or truncates it.
      disk := disk[args.output.value := []];
    }
    var inPath := args.input.value;
    if inPath !in disk {
      return 2, None;
    }
    var size := |disk[inPath]|;
    var h265Data := new ByteVector();
    if IsMp4(inPath) {
      // The result is only reported; the buffer is used whatever it says.
      var converted := ConvertToH265Pipe(inPath, h265Data, inv.pipe);
    }
    var source: Source;
    // data() of a vector that never allocated (nothing captured and
    // nothing reserved because the input is empty) is null.
    var dataIsNull: bool;
    if |h265Data.bytes| > 0 {
      source, dataIsNull := Converted(h265Data.bytes), false;
    } else {
      source, dataIsNull := InputFile, size == 0;
    }
    if dataIsNull {
      return 3, None;
    }
    // The length passed is the input file's size, not the buffer's.
    fed := Some(Feed(source, size));
    if inv.ingestThrows {
      return 1, fed;
    }
    return 0, fed;
  }
}
