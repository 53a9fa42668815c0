/** The encode step of a conversion (`frames2mp4`): from the ordered frame
    list of the animation metadata to the encoder's input arguments and its
    `-filter_complex` graph, and the virtual files the in-process encoder
    writes and later deletes. Both server variants share the loop; the
    stand-alone variant can also point the encoder at a real temporary
    directory ("native" mode). */
module EncodeGraph {
  import opened Text
  import opened Seqs

  /** One entry of the metadata's `frames` list: an image file name inside
      the archive and its display time in milliseconds. */
  datatype Frame = Frame(file: string, delay: int)

  /** Link labels of the filter graph: `[k]` is encoder input k, `[sk]` a
      copy made by `split`, `[fk]` a stream whose timestamps were shifted. */
  datatype Pad = Input(index: nat) | SplitCopy(index: nat) | Timed(index: nat)

  /** The filters the builder emits, in the order they appear in the graph. */
  datatype Directive =
    | SetPts(source: Pad, delay: int, target: Pad)   // millisecond timebase, timestamps shifted by `delay`
    | Split(source: Pad, first: Pad, second: Pad)     // duplicate one stream
    | Concat(inputs: seq<Pad>, count: nat)            // join `count` streams in order
    | ScaleEven                                       // round both dimensions down to even

  const ScaleText := "scale=trunc(iw/2)*2:trunc(ih/2)*2"

  function PadText(p: Pad): string {
    match p
    case Input(k) => "[" + NatText(k) + "]"
    case SplitCopy(k) => "[s" + NatText(k) + "]"
    case Timed(k) => "[f" + NatText(k) + "]"
  }

  function PadsText(ps: seq<Pad>): string {
    if ps == [] then "" else PadText(ps[0]) + PadsText(ps[1..])
  }

  function DirectiveText(d: Directive): string {
    match d
    case SetPts(src, delay, tgt) =>
      PadText(src) + "settb=1/1000,setpts=PTS+" + DelayText(delay) + "/TB" + PadText(tgt) + "; "
    case Split(src, a, b) => PadText(src) + "split" + PadText(a) + PadText(b) + "; "
    case Concat(ins, n) => PadsText(ins) + "concat=n=" + NatText(n) + ","
    case ScaleEven => ScaleText
  }

  /** The `-filter_complex` argument a graph is written as. */
  function GraphText(g: seq<Directive>): string {
    if g == [] then "" else DirectiveText(g[0]) + GraphText(g[1..])
  }

  // ---------------------------------------------------------------------------
  // The graph the builder is meant to produce

  /** Input k + 1 is shown `frames[k].delay` milliseconds late. */
  function TimedInput(frames: seq<Frame>, k: nat): Directive
    requires k < |frames|
  {
    SetPts(Input(k + 1), frames[k].delay, Timed(k + 1))
  }

  /** The directives for frames 0 .. n - 1 while none of them is one of the
      last two frames. */
  function TimedPrefix(frames: seq<Frame>, n: nat): seq<Directive>
    requires n <= |frames|
  {
    seq(n, k requires 0 <= k < n => TimedInput(frames, k))
  }

  /** `[0][f1]...[fn]`: the concat inputs once n frames have been seen. */
  function ConcatPads(n: nat): seq<Pad> {
    [Input(0)] + seq(n, k requires 0 <= k < n => Timed(k + 1))
  }

  /** What the second-to-last frame adds: the last input is split in two,
      both copies are delayed by the second-to-last frame's delay, and all
      streams are concatenated and scaled. */
  function LastFrames(frames: seq<Frame>): seq<Directive>
    requires |frames| >= 2
  {
    var len := |frames|;
    var delay := frames[len - 2].delay;
    [ Split(Input(len - 1), SplitCopy(len - 1), SplitCopy(len)),
      SetPts(SplitCopy(len - 1), delay, Timed(len - 1)),
      SetPts(SplitCopy(len), delay, Timed(len)),
      Concat(ConcatPads(len), len + 1),
      ScaleEven ]
  }

  /** The whole graph; empty for fewer than two frames. */
  function FilterGraph(frames: seq<Frame>): seq<Directive> {
    if |frames| <= 1 then [] else TimedPrefix(frames, |frames| - 2) + LastFrames(frames)
  }

  /** The graph after the loop has handled frames 0 .. i - 1. */
  function GraphSoFar(frames: seq<Frame>, i: nat): seq<Directive>
    requires i <= |frames|
  {
    if i + 1 >= |frames| then FilterGraph(frames) else TimedPrefix(frames, i)
  }

  /** The encoder's path for a frame file. */
  function InputPath(frame: Frame, native: bool, id: string): string {
    if native then "./tmp/" + id + "/" + frame.file else frame.file
  }

  /** `-i <path>` for every frame, in frame order. */
  function InputArgs(frames: seq<Frame>, native: bool, id: string): seq<string> {
    if frames == [] then []
    else InputArgs(frames[..|frames| - 1], native, id) + ["-i", InputPath(frames[|frames| - 1], native, id)]
  }

  function Files(frames: seq<Frame>): (names: seq<string>)
    ensures |names| == |frames|
    ensures forall k :: 0 <= k < |frames| ==> names[k] == frames[k].file
  {
    seq(|frames|, k requires 0 <= k < |frames| => frames[k].file)
  }

  // ---------------------------------------------------------------------------
  // Rendering lemmas

  lemma {:induction false} GraphTextAppend(g: seq<Directive>, h: seq<Directive>)
    ensures GraphText(g + h) == GraphText(g) + GraphText(h)
  {
    if g == [] {
      assert g + h == h;
    } else {
      assert (g + h)[1..] == g[1..] + h;
      GraphTextAppend(g[1..], h);
    }
  }

  lemma GraphTextSnoc(g: seq<Directive>, d: Directive)
    ensures GraphText(g + [d]) == GraphText(g) + DirectiveText(d)
  {
    GraphTextAppend(g, [d]);
    assert GraphText([d]) == DirectiveText(d);
  }

  lemma {:induction false} PadsTextSnoc(ps: seq<Pad>, p: Pad)
    ensures PadsText(ps + [p]) == PadsText(ps) + PadText(p)
  {
    if ps == [] {
      assert ps + [p] == [p];
    } else {
      assert (ps + [p])[1..] == ps[1..] + [p];
      PadsTextSnoc(ps[1..], p);
    }
  }

  lemma ConcatPadsSnoc(n: nat)
    ensures ConcatPads(n + 1) == ConcatPads(n) + [Timed(n + 1)]
  {
  }

  lemma TimedPrefixSnoc(frames: seq<Frame>, n: nat)
    requires n < |frames|
    ensures TimedPrefix(frames, n + 1) == TimedPrefix(frames, n) + [TimedInput(frames, n)]
  {
  }

  // ---------------------------------------------------------------------------
  // How the source spells each directive. The first three lemmas work on
  // arbitrary strings, so the prover regroups the pieces without looking
  // into the numbers they stand for.

  lemma SetPtsSpelling(open: string, n: string, t: string)
    ensures (open + n + "]") + "settb=1/1000,setpts=PTS+" + t + "/TB" + ("[f" + n + "]") + "; "
      == open + n + "]settb=1/1000,setpts=PTS+" + t + "/TB[f" + n + "]; "
  {
  }

  lemma SplitSpelling(n1: string, n2: string)
    ensures ("[" + n1 + "]") + "split" + ("[s" + n1 + "]") + ("[s" + n2 + "]") + "; "
      == "[" + n1 + "]split[s" + n1 + "][s" + n2 + "]; "
  {
  }

  lemma LastFramesSpelling(split: string, copy1: string, copy2: string, pads: string, n: string, count: string)
    ensures split + (copy1 + (copy2 + ((pads + ("[f" + n + "]")) + "concat=n=" + count + "," + (ScaleText + ""))))
      == split + copy1 + copy2 + pads + "[f" + n + "]concat=n=" + count + "," + ScaleText
  {
  }

  lemma TimedInputText(frames: seq<Frame>, i: nat)
    requires i < |frames|
    ensures DirectiveText(TimedInput(frames, i))
      == "[" + NatText(i + 1) + "]settb=1/1000,setpts=PTS+" + DelayText(frames[i].delay) + "/TB[f" + NatText(i + 1) + "]; "
  {
    SetPtsSpelling("[", NatText(i + 1), DelayText(frames[i].delay));
  }

  lemma CopyText(k: nat, delay: int)
    ensures DirectiveText(SetPts(SplitCopy(k), delay, Timed(k)))
      == "[s" + NatText(k) + "]settb=1/1000,setpts=PTS+" + DelayText(delay) + "/TB[f" + NatText(k) + "]; "
  {
    SetPtsSpelling("[s", NatText(k), DelayText(delay));
  }

  /** The text of the last-frame directives, spelled as the source spells it. */
  lemma LastFramesText(frames: seq<Frame>)
    requires |frames| >= 2
    ensures
      var len := |frames|;
      var delay := frames[len - 2].delay;
      GraphText(LastFrames(frames))
      == "[" + NatText(len - 1) + "]split[s" + NatText(len - 1) + "][s" + NatText(len) + "]; "
         + ("[s" + NatText(len - 1) + "]settb=1/1000,setpts=PTS+" + DelayText(delay) + "/TB[f" + NatText(len - 1) + "]; ")
         + ("[s" + NatText(len) + "]settb=1/1000,setpts=PTS+" + DelayText(delay) + "/TB[f" + NatText(len) + "]; ")
         + PadsText(ConcatPads(len - 1)) + "[f" + NatText(len) + "]concat=n=" + NatText(len + 1) + ","
         + ScaleText
  {
    var len := |frames|;
    var delay := frames[len - 2].delay;
    var last := LastFrames(frames);
    ConcatPadsSnoc(len - 1);
    PadsTextSnoc(ConcatPads(len - 1), Timed(len));
    assert GraphText(last[5..]) == "" by { assert last[5..] == []; }
    assert GraphText(last[4..]) == DirectiveText(last[4]) + GraphText(last[5..]) by { assert last[4..][1..] == last[5..]; }
    assert GraphText(last[3..]) == DirectiveText(last[3]) + GraphText(last[4..]) by { assert last[3..][1..] == last[4..]; }
    assert GraphText(last[2..]) == DirectiveText(last[2]) + GraphText(last[3..]) by { assert last[2..][1..] == last[3..]; }
    assert GraphText(last[1..]) == DirectiveText(last[1]) + GraphText(last[2..]) by { assert last[1..][1..] == last[2..]; }
    SplitSpelling(NatText(len - 1), NatText(len));
    CopyText(len - 1, delay);
    CopyText(len, delay);
    LastFramesSpelling(
      "[" + NatText(len - 1) + "]split[s" + NatText(len - 1) + "][s" + NatText(len) + "]; ",
      "[s" + NatText(len - 1) + "]settb=1/1000,setpts=PTS+" + DelayText(delay) + "/TB[f" + NatText(len - 1) + "]; ",
      "[s" + NatText(len) + "]settb=1/1000,setpts=PTS+" + DelayText(delay) + "/TB[f" + NatText(len) + "]; ",
      PadsText(ConcatPads(len - 1)), NatText(len), NatText(len + 1));
  }

  /** One pass of the loop for a frame that is not one of the last two. */
  lemma TimedStep(frames: seq<Frame>, i: nat)
    requires i + 2 < |frames|
    ensures GraphText(GraphSoFar(frames, i + 1)) == GraphText(GraphSoFar(frames, i))
      + ("[" + NatText(i + 1) + "]settb=1/1000,setpts=PTS+" + DelayText(frames[i].delay) + "/TB[f" + NatText(i + 1) + "]; ")
  {
    TimedInputText(frames, i);
    TimedPrefixSnoc(frames, i);
    GraphTextSnoc(TimedPrefix(frames, i), TimedInput(frames, i));
  }

  /** The pass of the loop for the second-to-last frame. */
  lemma LastStep(frames: seq<Frame>, concat: string)
    requires |frames| >= 2
    requires concat == PadsText(ConcatPads(|frames| - 1))
    ensures
      var len, i := |frames|, |frames| - 2;
      var delay := frames[i].delay;
      GraphText(GraphSoFar(frames, i + 1)) == GraphText(GraphSoFar(frames, i)) + (
        "[" + NatText(i + 1) + "]split[s" + NatText(i + 1) + "][s" + NatText(i + 2) + "]; "
        + ("[s" + NatText(i + 1) + "]settb=1/1000,setpts=PTS+" + DelayText(delay) + "/TB[f" + NatText(i + 1) + "]; ")
        + ("[s" + NatText(i + 2) + "]settb=1/1000,setpts=PTS+" + DelayText(delay) + "/TB[f" + NatText(i + 2) + "]; ")
        + concat + "[f" + NatText(i + 2) + "]concat=n=" + NatText(len + 1) + ","
        + ScaleText)
  {
    var len := |frames|;
    assert len - 2 + 1 == len - 1 && len - 2 + 2 == len;
    LastFramesText(frames);
    GraphTextAppend(TimedPrefix(frames, len - 2), LastFrames(frames));
  }

  /** One pass of the loop on the `-i` arguments. */
  lemma InputArgsStep(frames: seq<Frame>, i: nat, native: bool, id: string)
    requires i < |frames|
    ensures InputArgs(frames[..i + 1], native, id)
      == InputArgs(frames[..i], native, id)
         + ["-i", if native then "./tmp/" + id + "/" + frames[i].file else frames[i].file]
  {
    assert frames[..i + 1][..i] == frames[..i];
  }

  // ---------------------------------------------------------------------------
  // The loop of `frames2mp4`

  /** Builds the `-i` arguments and the filter string as the source's loop
      does, one frame at a time; the result is the graph FilterGraph
      describes. */
  method BuildInputsAndFilter(frames: seq<Frame>, native: bool, id: string)
    returns (argsOfInput: seq<string>, filterComplexStr: string)
    ensures argsOfInput == InputArgs(frames, native, id)
    ensures filterComplexStr == GraphText(FilterGraph(frames))
  {
    var len := |frames|;
    argsOfInput, filterComplexStr := [], "";
    var filterComplexStrConcat := "[0]";
    for i := 0 to len
      invariant argsOfInput == InputArgs(frames[..i], native, id)
      invariant filterComplexStrConcat == PadsText(ConcatPads(i))
      invariant filterComplexStr == GraphText(GraphSoFar(frames, i))
    {
      var file, delay := frames[i].file, frames[i].delay;
      argsOfInput := argsOfInput + ["-i", if native then "./tmp/" + id + "/" + file else file];
      InputArgsStep(frames, i, native, id);
      ConcatPadsSnoc(i);
      PadsTextSnoc(ConcatPads(i), Timed(i + 1));
      filterComplexStrConcat := filterComplexStrConcat + ("[f" + NatText(i + 1) + "]");
      if i == len - 2 {
        filterComplexStr := filterComplexStr + (
          "[" + NatText(i + 1) + "]split[s" + NatText(i + 1) + "][s" + NatText(i + 2) + "]; "
          + ("[s" + NatText(i + 1) + "]settb=1/1000,setpts=PTS+" + DelayText(delay) + "/TB[f" + NatText(i + 1) + "]; ")
          + ("[s" + NatText(i + 2) + "]settb=1/1000,setpts=PTS+" + DelayText(delay) + "/TB[f" + NatText(i + 2) + "]; ")
          + filterComplexStrConcat + "[f" + NatText(i + 2) + "]concat=n=" + NatText(len + 1) + ","
          + ScaleText);
        LastStep(frames, filterComplexStrConcat);
      } else if i < len - 2 {
        filterComplexStr := filterComplexStr
          + ("[" + NatText(i + 1) + "]settb=1/1000,setpts=PTS+" + DelayText(delay) + "/TB[f" + NatText(i + 1) + "]; ");
        TimedStep(frames, i);
      }
    }
    assert frames[..len] == frames;
  }

  // ---------------------------------------------------------------------------
  // The whole encode call

  /** How the stand-alone variant runs: with a native encoder binary (frames
      extracted to `./tmp/<id>/`) or the in-process one, and as a
      command-line batch or as the server. */
  datatype Runtime = Runtime(native: bool, cli: bool)

  /** `${id}.mp4` in command-line mode, `${convertTs}-${id}.mp4` otherwise. */
  function SaveName(cli: bool, convertTs: nat, id: string): string {
    if cli then id + ".mp4" else NatText(convertTs) + "-" + id + ".mp4"
  }

  function SavePath(cli: bool, saveName: string): string {
    if cli then "./" + saveName else "./src/" + saveName
  }

  /** The odd-index entries of the `-i` arguments: the file names. */
  method OddEntries(argsOfInput: seq<string>) returns (names: seq<string>)
    ensures |names| == |argsOfInput| / 2
    ensures forall k :: 0 <= k < |names| ==> names[k] == argsOfInput[2 * k + 1]
  {
    names := [];
    for index := 0 to |argsOfInput|
      invariant |names| == index / 2
      invariant forall k :: 0 <= k < |names| ==> names[k] == argsOfInput[2 * k + 1]
    {
      if index % 2 == 1 {
        names := names + [argsOfInput[index]];
      }
    }
  }

  /** The unlink walk after an in-process run: `names` are unlinked in
      order; unlinking a name this walk has already unlinked throws, which
      ends the walk. `unlinked` are the unlinks that took place, and the walk
      completed when it reached the end. */
  predicate StopsAtFirstRepeat(names: seq<string>, unlinked: seq<string>, completed: bool) {
    |unlinked| <= |names| && unlinked == names[..|unlinked|] &&
    (forall j :: 0 <= j < |unlinked| ==> names[j] !in names[..j]) &&
    (completed <==> |unlinked| == |names|) &&
    (!completed ==> names[|unlinked|] in names[..|unlinked|])
  }

  /** `FS("unlink", name)` for each name in turn, on a file system that holds
      every name once. */
  method UnlinkWalk(names: seq<string>) returns (unlinked: seq<string>, completed: bool)
    ensures StopsAtFirstRepeat(names, unlinked, completed)
  {
    var gone: set<string> := {};
    unlinked := [];
    var i := 0;
    while i < |names| && names[i] !in gone
      invariant i <= |names| && unlinked == names[..i]
      invariant forall j :: 0 <= j < i ==> names[j] !in names[..j]
      invariant forall x :: x in gone <==> x in names[..i]
    {
      assert names[..i + 1] == names[..i] + [names[i]];
      gone := gone + {names[i]};
      unlinked := unlinked + [names[i]];
      i := i + 1;
    }
    completed := i == |names|;
  }

  /** The walk completes exactly when no name repeats, and then it unlinks
      every name. */
  lemma UnlinkWalkCompletesIffDistinct(names: seq<string>, unlinked: seq<string>, completed: bool)
    requires StopsAtFirstRepeat(names, unlinked, completed)
    ensures completed <==> Distinct(names)
    ensures completed ==> unlinked == names
  {
    if completed {
      forall a, b | 0 <= a < b < |names|
        ensures names[a] != names[b]
      {
        assert names[..b][a] == names[a];
      }
    } else {
      var k := |unlinked|;
      var m :| 0 <= m < k && names[..k][m] == names[k];
      assert names[m] == names[k];
    }
  }

  /** Two frames with the same file name: the first unlink removes it, the
      second throws, and the output is never unlinked. */
  lemma RepeatedFrameFileStopsWalk(unlinked: seq<string>, completed: bool)
    requires StopsAtFirstRepeat(["a.jpg", "a.jpg", "1.mp4"], unlinked, completed)
    ensures unlinked == ["a.jpg"] && !completed
  {
    var names := ["a.jpg", "a.jpg", "1.mp4"];
    assert names[..0] == [] && names[..1] == ["a.jpg"];
    assert names[1] in names[..1];
  }

  /** The stand-alone variant's `frames2mp4` up to running the encoder and
      after it: the encoder's argument list, where the video is saved, and,
      with the in-process encoder, the virtual files written before the run
      and the unlink walk over the frame files and the output after it (no
      walk with a native encoder). The walk completes, and `frames2mp4`
      returns, exactly when no name repeats; otherwise it throws at the
      first repeat, after the video has been saved. */
  method Frames2Mp4(frames: seq<Frame>, id: string, runtime: Runtime, convertTs: nat)
    returns (command: seq<string>, savePath: string, written: seq<string>, unlinked: seq<string>, completed: bool)
    ensures
      var saveName := SaveName(runtime.cli, convertTs, id);
      command == InputArgs(frames, runtime.native, id)
        + ["-hide_banner", "-c:v", "libx264", "-filter_complex", GraphText(FilterGraph(frames)),
           "-fps_mode", "vfr", "-video_track_timescale", "1000",
           if runtime.native then SavePath(runtime.cli, saveName) else saveName] &&
      savePath == SavePath(runtime.cli, saveName) &&
      written == (if runtime.native then [] else Files(frames)) &&
      (runtime.native ==> unlinked == [] && completed) &&
      (!runtime.native ==> StopsAtFirstRepeat(written + [saveName], unlinked, completed))
  {
    var argsOfInput, filterComplexStr := BuildInputsAndFilter(frames, runtime.native, id);
    written := if runtime.native then [] else Files(frames);
    var saveName := if runtime.cli then id + ".mp4" else NatText(convertTs) + "-" + id + ".mp4";
    savePath := if runtime.cli then "./" + saveName else "./src/" + saveName;
    command := argsOfInput
      + ["-hide_banner", "-c:v", "libx264", "-filter_complex", filterComplexStr,
         "-fps_mode", "vfr", "-video_track_timescale", "1000",
         if runtime.native then savePath else saveName];
    unlinked, completed := [], true;
    if !runtime.native {
      var frameFiles := OddEntries(argsOfInput);
      OddEntriesAreFiles(frames, id, frameFiles);
      unlinked, completed := UnlinkWalk(frameFiles + [saveName]);
    }
  }

  /** The serverless variant's `frames2mp4` up to running the encoder and
      after it: it always uses the in-process encoder and names the output
      `${id}.mp4`. The unlink walk over the frame files and the output
      completes, and the video reaches the result cache, exactly when no
      name repeats; otherwise the attempt throws at the first repeat. */
  method Frames2Mp4Api(frames: seq<Frame>, id: string)
    returns (command: seq<string>, written: seq<string>, unlinked: seq<string>, completed: bool)
    ensures command == InputArgs(frames, false, id)
      + ["-hide_banner", "-c:v", "libx264", "-filter_complex", GraphText(FilterGraph(frames)),
         "-vsync", "vfr", "-r", "1000", "-video_track_timescale", "1000", id + ".mp4"]
    ensures written == Files(frames)
    ensures StopsAtFirstRepeat(written + [id + ".mp4"], unlinked, completed)
  {
    var argsOfInput, filterComplexStr := BuildInputsAndFilter(frames, false, id);
    written := Files(frames);
    var saveName := id + ".mp4";
    command := argsOfInput
      + ["-hide_banner", "-c:v", "libx264", "-filter_complex", filterComplexStr,
         "-vsync", "vfr", "-r", "1000", "-video_track_timescale", "1000", saveName];
    var frameFiles := OddEntries(argsOfInput);
    OddEntriesAreFiles(frames, id, frameFiles);
    unlinked, completed := UnlinkWalk(frameFiles + [saveName]);
  }

  /** With the in-process encoder the odd-index `-i` arguments are exactly
      the frame files written before the run. */
  lemma OddEntriesAreFiles(frames: seq<Frame>, id: string, names: seq<string>)
    requires |names| == |InputArgs(frames, false, id)| / 2
    requires forall k :: 0 <= k < |names| ==> names[k] == InputArgs(frames, false, id)[2 * k + 1]
    ensures names == Files(frames)
  {
    InputArgsShape(frames, false, id);
  }

  // ---------------------------------------------------------------------------
  // Properties of the arguments and of the graph

  /** `argsOfInput` alternates "-i" and the frame's path, in frame order. */
  lemma {:induction false} InputArgsShape(frames: seq<Frame>, native: bool, id: string)
    ensures |InputArgs(frames, native, id)| == 2 * |frames|
    ensures forall k :: 0 <= k < |frames| ==>
      InputArgs(frames, native, id)[2 * k] == "-i" &&
      InputArgs(frames, native, id)[2 * k + 1] == InputPath(frames[k], native, id)
  {
    if frames != [] {
      var init := frames[..|frames| - 1];
      InputArgsShape(init, native, id);
      assert forall k :: 0 <= k < |init| ==> init[k] == frames[k];
    }
  }

  /** The filter string is empty exactly when there are fewer than two
      frames: a single frame gets no scaling, and no frames is no error. */
  lemma FilterEmptyIffShort(frames: seq<Frame>)
    ensures (GraphText(FilterGraph(frames)) == "") <==> |frames| <= 1
  {
    if |frames| >= 2 {
      var prefix, last := TimedPrefix(frames, |frames| - 2), LastFrames(frames);
      GraphTextAppend(prefix, last);
      assert GraphText(last) == DirectiveText(last[0]) + GraphText(last[1..]);
      assert |DirectiveText(last[0])| > 0;
    }
  }

  /** For two frames or more the graph ends with `concat=n=<len+1>` over
      `[0][f1]...[f<len>]` and the even-size scale, and its text ends with
      those two directives. */
  lemma FilterEndsWithConcatAndScale(frames: seq<Frame>)
    requires |frames| >= 2
    ensures
      var len, g := |frames|, FilterGraph(frames);
      |g| == len + 3 &&
      g[len + 1] == Concat(ConcatPads(len), len + 1) &&
      g[len + 2] == ScaleEven &&
      |ConcatPads(len)| == len + 1 &&
      ConcatPads(len)[0] == Input(0) &&
      (forall k :: 1 <= k <= len ==> ConcatPads(len)[k] == Timed(k)) &&
      GraphText(g) == GraphText(g[..len + 1])
        + (PadsText(ConcatPads(len)) + "concat=n=" + NatText(len + 1) + ",")
        + ScaleText
  {
    var len, g := |frames|, FilterGraph(frames);
    assert g == g[..len + 1] + [g[len + 1]] + [g[len + 2]];
    GraphTextSnoc(g[..len + 1], g[len + 1]);
    GraphTextSnoc(g[..len + 1] + [g[len + 1]], g[len + 2]);
  }

  /** The last frame's own delay is never read: two frame lists that differ
      only there give the same arguments and the same graph. */
  lemma LastDelayIgnored(frames: seq<Frame>, other: seq<Frame>, native: bool, id: string)
    requires |frames| == |other| >= 1
    requires frames[..|frames| - 1] == other[..|other| - 1]
    requires frames[|frames| - 1].file == other[|other| - 1].file
    ensures InputArgs(frames, native, id) == InputArgs(other, native, id)
    ensures FilterGraph(frames) == FilterGraph(other)
  {
    var len := |frames|;
    assert forall k :: 0 <= k < len - 1 ==> frames[k] == other[k] by {
      forall k | 0 <= k < len - 1 ensures frames[k] == other[k] {
        assert frames[..len - 1][k] == other[..len - 1][k];
      }
    }
  }

  /** The labels a directive defines and the labels it reads. */
  function Outputs(d: Directive): seq<Pad> {
    match d
    case SetPts(_, _, target) => [target]
    case Split(_, a, b) => [a, b]
    case Concat(_, _) => []
    case ScaleEven => []
  }

  function Reads(d: Directive): seq<Pad> {
    match d
    case SetPts(source, _, _) => [source]
    case Split(source, _, _) => [source]
    case Concat(inputs, _) => inputs
    case ScaleEven => []
  }

  /** Every label defined, and every label read, by a graph, with repeats. */
  function Produced(g: seq<Directive>): seq<Pad> {
    if g == [] then [] else Outputs(g[0]) + Produced(g[1..])
  }

  function Consumed(g: seq<Directive>): seq<Pad> {
    if g == [] then [] else Reads(g[0]) + Consumed(g[1..])
  }

  /** The directives of a graph that define label p, in graph order. */
  function Producers(g: seq<Directive>, p: Pad): seq<Directive> {
    if g == [] then []
    else if p in Outputs(g[0]) then [g[0]] + Producers(g[1..], p)
    else Producers(g[1..], p)
  }

  /** `[d]` when d defines p, else nothing. */
  function Defining(d: Directive, p: Pad): seq<Directive> {
    if p in Outputs(d) then [d] else []
  }

  lemma {:induction false} ProducedAppend(g: seq<Directive>, h: seq<Directive>)
    ensures Produced(g + h) == Produced(g) + Produced(h)
  {
    if g == [] {
      assert g + h == h;
    } else {
      assert (g + h)[1..] == g[1..] + h;
      ProducedAppend(g[1..], h);
    }
  }

  lemma {:induction false} ConsumedAppend(g: seq<Directive>, h: seq<Directive>)
    ensures Consumed(g + h) == Consumed(g) + Consumed(h)
  {
    if g == [] {
      assert g + h == h;
    } else {
      assert (g + h)[1..] == g[1..] + h;
      ConsumedAppend(g[1..], h);
    }
  }

  lemma {:induction false} ProducersAppend(g: seq<Directive>, h: seq<Directive>, p: Pad)
    ensures Producers(g + h, p) == Producers(g, p) + Producers(h, p)
  {
    if g == [] {
      assert g + h == h;
    } else {
      assert (g + h)[0] == g[0] && (g + h)[1..] == g[1..] + h;
      ProducersAppend(g[1..], h, p);
    }
  }

  lemma {:induction false} TimedPrefixProduced(frames: seq<Frame>, n: nat)
    requires n <= |frames|
    ensures Produced(TimedPrefix(frames, n)) == TimedRun(n)
  {
    if n > 0 {
      TimedPrefixProduced(frames, n - 1);
      TimedPrefixSnoc(frames, n - 1);
      ProducedAppend(TimedPrefix(frames, n - 1), [TimedInput(frames, n - 1)]);
    }
  }

  lemma {:induction false} TimedPrefixConsumed(frames: seq<Frame>, n: nat)
    requires n <= |frames|
    ensures Consumed(TimedPrefix(frames, n)) == InputRun(n)
  {
    if n > 0 {
      TimedPrefixConsumed(frames, n - 1);
      TimedPrefixSnoc(frames, n - 1);
      ConsumedAppend(TimedPrefix(frames, n - 1), [TimedInput(frames, n - 1)]);
    }
  }

  lemma {:induction false} TimedPrefixProducers(frames: seq<Frame>, n: nat, p: Pad)
    requires n <= |frames|
    ensures Producers(TimedPrefix(frames, n), p)
      == if p.Timed? && 1 <= p.index <= n then [TimedInput(frames, p.index - 1)] else []
  {
    if n > 0 {
      var d := TimedInput(frames, n - 1);
      TimedPrefixProducers(frames, n - 1, p);
      TimedPrefixSnoc(frames, n - 1);
      ProducersAppend(TimedPrefix(frames, n - 1), [d], p);
      assert Producers([d], p) == Defining(d, p) by {
        assert [d][1..] == [];
      }
      if p == Timed(n) {
        assert Defining(d, p) == [d];
      } else {
        assert Defining(d, p) == [];
      }
    }
  }

  /** Where the delays go: input j (1 <= j <= len - 2) is shifted by the
      delay of frame j - 1, and both copies of the last input by the delay
      of frame len - 2; each shifted label has exactly this one definition. */
  lemma {:induction false} DelayPlacement(frames: seq<Frame>, j: nat)
    requires |frames| >= 2 && 1 <= j <= |frames|
    ensures
      var len := |frames|;
      Producers(FilterGraph(frames), Timed(j))
      == if j <= len - 2 then [SetPts(Input(j), frames[j - 1].delay, Timed(j))]
         else [SetPts(SplitCopy(j), frames[len - 2].delay, Timed(j))]
  {
    var len, p := |frames|, Timed(j);
    var delay := frames[len - 2].delay;
    TimedPrefixProducers(frames, len - 2, p);
    ProducersAppend(TimedPrefix(frames, len - 2), LastFrames(frames), p);
    LastFramesProducers(frames, p);
    assert Defining(Split(Input(len - 1), SplitCopy(len - 1), SplitCopy(len)), p) == [];
    if j <= len - 2 {
      assert Defining(SetPts(SplitCopy(len - 1), delay, Timed(len - 1)), p) == [];
      assert Defining(SetPts(SplitCopy(len), delay, Timed(len)), p) == [];
    } else if j == len - 1 {
      assert Defining(SetPts(SplitCopy(len), delay, Timed(len)), p) == [];
    } else {
      assert Defining(SetPts(SplitCopy(len - 1), delay, Timed(len - 1)), p) == [];
    }
  }

  /** The labels the last-frame directives define, one directive at a time. */
  lemma LastFramesProducers(frames: seq<Frame>, p: Pad)
    requires |frames| >= 2
    ensures
      var len, last := |frames|, LastFrames(frames);
      Producers(last, p)
      == Defining(Split(Input(len - 1), SplitCopy(len - 1), SplitCopy(len)), p)
         + Defining(SetPts(SplitCopy(len - 1), frames[len - 2].delay, Timed(len - 1)), p)
         + Defining(SetPts(SplitCopy(len), frames[len - 2].delay, Timed(len)), p)
  {
    var last := LastFrames(frames);
    assert Producers(last[3..], p) == [] by {
      assert last[3..][1..][1..] == [];
      assert Producers(last[3..][1..], p) == [];
    }
    assert Producers(last[2..], p) == Defining(last[2], p) by {
      assert last[2..][1..] == last[3..];
    }
    assert Producers(last[1..], p) == Defining(last[1], p) + Defining(last[2], p) by {
      assert last[1..][1..] == last[2..];
    }
  }

  /** How often label p occurs in a list of labels. */
  function Count(s: seq<Pad>, p: Pad): nat {
    if s == [] then 0 else (if s[0] == p then 1 else 0) + Count(s[1..], p)
  }

  lemma {:induction false} CountAppend(s: seq<Pad>, t: seq<Pad>, p: Pad)
    ensures Count(s + t, p) == Count(s, p) + Count(t, p)
  {
    if s == [] {
      assert s + t == t;
    } else {
      assert (s + t)[0] == s[0] && (s + t)[1..] == s[1..] + t;
      CountAppend(s[1..], t, p);
    }
  }

  /** `[f1]...[fn]` and `[1]...[n]`. */
  function TimedRun(n: nat): seq<Pad> {
    seq(n, k requires 0 <= k < n => Timed(k + 1))
  }

  function InputRun(n: nat): seq<Pad> {
    seq(n, k requires 0 <= k < n => Input(k + 1))
  }

  lemma {:induction false} CountRuns(n: nat, p: Pad)
    ensures Count(TimedRun(n), p) == if p.Timed? && 1 <= p.index <= n then 1 else 0
    ensures Count(InputRun(n), p) == if p.Input? && 1 <= p.index <= n then 1 else 0
  {
    if n > 0 {
      CountRuns(n - 1, p);
      assert TimedRun(n) == TimedRun(n - 1) + [Timed(n)];
      assert InputRun(n) == InputRun(n - 1) + [Input(n)];
      CountAppend(TimedRun(n - 1), [Timed(n)], p);
      CountAppend(InputRun(n - 1), [Input(n)], p);
    }
  }

  lemma LastFramesProduced(frames: seq<Frame>)
    requires |frames| >= 2
    ensures
      var len := |frames|;
      Produced(LastFrames(frames)) == [SplitCopy(len - 1), SplitCopy(len), Timed(len - 1), Timed(len)]
  {
    var len, last := |frames|, LastFrames(frames);
    assert Produced(last[4..]) == [] by { assert last[4..][1..] == []; }
    assert Produced(last[3..]) == [] by { assert last[3..][1..] == last[4..]; }
    assert Produced(last[2..]) == [Timed(len)] by { assert last[2..][1..] == last[3..]; }
    assert Produced(last[1..]) == [Timed(len - 1), Timed(len)] by { assert last[1..][1..] == last[2..]; }
  }

  lemma LastFramesConsumed(frames: seq<Frame>)
    requires |frames| >= 2
    ensures
      var len := |frames|;
      Consumed(LastFrames(frames)) == [Input(len - 1)] + ([SplitCopy(len - 1)] + ([SplitCopy(len)] + ConcatPads(len)))
  {
    var len, last := |frames|, LastFrames(frames);
    var pads := ConcatPads(len);
    assert Consumed(last[4..]) == [] by { assert last[4..][1..] == []; }
    assert Consumed(last[3..]) == pads by { assert last[3..][1..] == last[4..]; }
    assert Consumed(last[2..]) == [SplitCopy(len)] + pads by { assert last[2..][1..] == last[3..]; }
    assert Consumed(last[1..]) == [SplitCopy(len - 1)] + ([SplitCopy(len)] + pads) by {
      assert last[1..][1..] == last[2..];
    }
  }

  /** Which copy labels the graph has: the two halves of the split. */
  predicate IsSplitCopy(p: Pad, len: nat) {
    p.SplitCopy? && len - 1 <= p.index <= len
  }

  function Hit(q: Pad, p: Pad): nat {
    if q == p then 1 else 0
  }

  lemma CountFour(a: Pad, b: Pad, c: Pad, d: Pad, p: Pad)
    ensures Count([a, b, c, d], p) == Hit(a, p) + Hit(b, p) + Hit(c, p) + Hit(d, p)
  {
    assert Count([d], p) == Hit(d, p) by { assert [d][1..] == []; }
    assert Count([c, d], p) == Hit(c, p) + Count([d], p) by { assert [c, d][1..] == [d]; }
    assert Count([b, c, d], p) == Hit(b, p) + Count([c, d], p) by { assert [b, c, d][1..] == [c, d]; }
    assert [a, b, c, d][1..] == [b, c, d];
  }

  /** Counting over `[x] + ([y] + ([z] + rest))`, the shape of what the
      last-frame directives read. */
  lemma CountThreeThen(x: Pad, y: Pad, z: Pad, rest: seq<Pad>, p: Pad)
    ensures Count([x] + ([y] + ([z] + rest)), p) == Hit(x, p) + Hit(y, p) + Hit(z, p) + Count(rest, p)
  {
    assert Count([z] + rest, p) == Hit(z, p) + Count(rest, p) by { assert ([z] + rest)[1..] == rest; }
    assert Count([y] + ([z] + rest), p) == Hit(y, p) + Count([z] + rest, p) by {
      assert ([y] + ([z] + rest))[1..] == [z] + rest;
    }
    assert ([x] + ([y] + ([z] + rest)))[1..] == [y] + ([z] + rest);
  }

  /** How often the graph defines a label: once for `[f1]`..`[f<len>]` and
      the two split copies, never otherwise. */
  lemma DefinedCount(frames: seq<Frame>, p: Pad)
    requires |frames| >= 2
    ensures Count(Produced(FilterGraph(frames)), p)
      == (if p.Timed? && 1 <= p.index <= |frames| then 1 else 0) + (if IsSplitCopy(p, |frames|) then 1 else 0)
  {
    var len := |frames|;
    var s1, s2, t1, t2 := SplitCopy(len - 1), SplitCopy(len), Timed(len - 1), Timed(len);
    ProducedAppend(TimedPrefix(frames, len - 2), LastFrames(frames));
    TimedPrefixProduced(frames, len - 2);
    LastFramesProduced(frames);
    CountRuns(len - 2, p);
    CountAppend(TimedRun(len - 2), [s1, s2, t1, t2], p);
    CountFour(s1, s2, t1, t2, p);
  }

  /** How often the graph reads a label: once for each encoder input, each
      `[f1]`..`[f<len>]` and each split copy, never otherwise. */
  lemma ReadCount(frames: seq<Frame>, p: Pad)
    requires |frames| >= 2
    ensures Count(Consumed(FilterGraph(frames)), p)
      == (if p.Input? && p.index < |frames| then 1 else 0)
         + (if p.Timed? && 1 <= p.index <= |frames| then 1 else 0)
         + (if IsSplitCopy(p, |frames|) then 1 else 0)
  {
    var len := |frames|;
    var s1, s2 := SplitCopy(len - 1), SplitCopy(len);
    ConsumedAppend(TimedPrefix(frames, len - 2), LastFrames(frames));
    TimedPrefixConsumed(frames, len - 2);
    LastFramesConsumed(frames);
    CountRuns(len - 2, p);
    CountRuns(len, p);
    var pads := ConcatPads(len);
    assert pads == [Input(0)] + TimedRun(len);
    assert Count(pads, p) == Hit(Input(0), p) + Count(TimedRun(len), p) by {
      assert pads[1..] == TimedRun(len);
    }
    CountThreeThen(Input(len - 1), s1, s2, pads, p);
    CountAppend(InputRun(len - 2), [Input(len - 1)] + ([s1] + ([s2] + pads)), p);
  }

  /** The graph is well linked: no label is defined twice, every defined
      label is read exactly once, and every encoder input is read exactly
      once, so nothing is left dangling or read twice. */
  lemma EveryLinkUsedOnce(frames: seq<Frame>, p: Pad)
    requires |frames| >= 2
    ensures Count(Produced(FilterGraph(frames)), p) <= 1
    ensures Count(Consumed(FilterGraph(frames)), p)
      == Count(Produced(FilterGraph(frames)), p) + (if p.Input? && p.index < |frames| then 1 else 0)
  {
    DefinedCount(frames, p);
    ReadCount(frames, p);
  }
}
