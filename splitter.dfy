/**
  The splitter store: the loaded audio file, the parsed cue sheet and the front
  cover, each with the actions that replace them.

  The store is a mutable object whose actions overwrite some of its fields and
  leave the others as they were. The cue-sheet parser is an external function;
  here it is a parameter fixed when the store is created, returning the parsed
  sheet together with the list of errors it found.
*/
module Splitter {
  import opened Base

  /** What the cue-sheet parser returns: a sheet and the errors met while parsing it. */
  datatype ParseResult<Sheet, Error> = ParseResult(sheet: Sheet, errors: seq<Error>)

  /** The five data fields of the store. */
  datatype State<Sheet> = State(
    audioFile: Option<Bytes>,
    audioFileName: string,
    cue: Option<Sheet>,
    frontCover: Option<Bytes>,
    frontCoverFileName: string)

  /** The store's three actions with their arguments. */
  datatype Action =
    | UpdateAudioFile(file: Bytes, fileName: string)
    | LoadCueSheet(content: string)
    | UpdateFrontCover(picture: Bytes, fileName: string)

  /** The state the store is created with: nothing loaded, empty names. */
  function Initial<Sheet>(): State<Sheet> {
    State(None, "", None, None, "")
  }

  /** The state after one action; `loadCueSheet` keeps the old state when parsing reports errors. */
  function Step<Sheet, Error>(parse: string -> ParseResult<Sheet, Error>, st: State<Sheet>, a: Action): State<Sheet> {
    match a
    case UpdateAudioFile(file, fileName) => st.(audioFile := Some(file), audioFileName := fileName)
    case LoadCueSheet(content) =>
      var parsed := parse(content);
      if |parsed.errors| > 0 then st else st.(cue := Some(parsed.sheet))
    case UpdateFrontCover(picture, fileName) => st.(frontCover := Some(picture), frontCoverFileName := fileName)
  }

  /** The state after a sequence of actions, applied in order. */
  function Run<Sheet, Error>(parse: string -> ParseResult<Sheet, Error>, st: State<Sheet>, acts: seq<Action>): State<Sheet>
    decreases |acts|
  {
    if acts == [] then st else Run(parse, Step(parse, st, acts[0]), acts[1..])
  }

  class SplitterStore<Sheet, Error> {
    /** The external cue-sheet parser. */
    const parse: string -> ParseResult<Sheet, Error>

    var audioFile: Option<Bytes>
    var audioFileName: string
    var cue: Option<Sheet>
    var frontCover: Option<Bytes>
    var frontCoverFileName: string

    /** The store's data fields as one value. */
    function Snapshot(): State<Sheet>
      reads this
    {
      State(audioFile, audioFileName, cue, frontCover, frontCoverFileName)
    }

    constructor (parse: string -> ParseResult<Sheet, Error>)
      ensures this.parse == parse
      ensures audioFile == None && audioFileName == "" && cue == None
      ensures frontCover == None && frontCoverFileName == ""
      ensures Snapshot() == Initial()
    {
      this.parse := parse;
      audioFile, audioFileName := None, "";
      cue := None;
      frontCover, frontCoverFileName := None, "";
    }

    /** `updateAudioFile`: replaces the audio file and its name. */
    method UpdateAudioFile(file: Bytes, fileName: string)
      modifies this
      ensures audioFile == Some(file) && audioFileName == fileName
      ensures cue == old(cue) && frontCover == old(frontCover) && frontCoverFileName == old(frontCoverFileName)
      ensures Snapshot() == Step(parse, old(Snapshot()), Action.UpdateAudioFile(file, fileName))
    {
      audioFile, audioFileName := Some(file), fileName;
    }

    /** `loadCueSheet`: parses `content` and keeps the sheet only when the parser reports no errors. */
    method LoadCueSheet(content: string)
      modifies this
      ensures |parse(content).errors| > 0 ==> Snapshot() == old(Snapshot())
      ensures |parse(content).errors| == 0 ==> cue == Some(parse(content).sheet)
      ensures audioFile == old(audioFile) && audioFileName == old(audioFileName)
      ensures frontCover == old(frontCover) && frontCoverFileName == old(frontCoverFileName)
      ensures Snapshot() == Step(parse, old(Snapshot()), Action.LoadCueSheet(content))
    {
      var parsed := parse(content);
      if |parsed.errors| == 0 {
        cue := Some(parsed.sheet);
      }
    }

    /** `updateFrontCover`: replaces the front cover and its file name. */
    method UpdateFrontCover(picture: Bytes, fileName: string)
      modifies this
      ensures frontCover == Some(picture) && frontCoverFileName == fileName
      ensures audioFile == old(audioFile) && audioFileName == old(audioFileName) && cue == old(cue)
      ensures Snapshot() == Step(parse, old(Snapshot()), Action.UpdateFrontCover(picture, fileName))
    {
      frontCover, frontCoverFileName := Some(picture), fileName;
    }
  }

  // ---------------------------------------------------------------------------
  // Properties of the actions
  // ---------------------------------------------------------------------------

  /** Each action touches only its own fields. */
  lemma StepFrame<Sheet, Error>(parse: string -> ParseResult<Sheet, Error>, st: State<Sheet>, a: Action)
    ensures !a.UpdateAudioFile? ==>
      Step(parse, st, a).audioFile == st.audioFile && Step(parse, st, a).audioFileName == st.audioFileName
    ensures !a.LoadCueSheet? ==> Step(parse, st, a).cue == st.cue
    ensures !a.UpdateFrontCover? ==>
      Step(parse, st, a).frontCover == st.frontCover && Step(parse, st, a).frontCoverFileName == st.frontCoverFileName
    ensures a.LoadCueSheet? && |parse(a.content).errors| > 0 ==> Step(parse, st, a) == st
  {
  }

  /** Every action is an overwrite: applying it twice is the same as applying it once. */
  lemma StepIdempotent<Sheet, Error>(parse: string -> ParseResult<Sheet, Error>, st: State<Sheet>, a: Action)
    ensures Step(parse, Step(parse, st, a), a) == Step(parse, st, a)
  {
  }

  /** Running `acts` and then `more` is running their concatenation. */
  lemma {:induction false} RunAppend<Sheet, Error>(
    parse: string -> ParseResult<Sheet, Error>, st: State<Sheet>, acts: seq<Action>, more: seq<Action>)
    ensures Run(parse, st, acts + more) == Run(parse, Run(parse, st, acts), more)
    decreases |acts|
  {
    if acts == [] {
      assert acts + more == more;
    } else {
      assert (acts + more)[0] == acts[0];
      assert (acts + more)[1..] == acts[1..] + more;
      RunAppend(parse, Step(parse, st, acts[0]), acts[1..], more);
    }
  }

  /**
    A sheet the parser rejects never replaces a loaded one: after any run of
    actions, `cue` is either what it was at the start or the sheet of some
    `loadCueSheet` in the run whose parse reported no errors.
  */
  lemma {:induction false} CueOnlyFromCleanParse<Sheet, Error>(
    parse: string -> ParseResult<Sheet, Error>, st: State<Sheet>, acts: seq<Action>)
    ensures Run(parse, st, acts).cue == st.cue
      || exists k :: 0 <= k < |acts| && acts[k].LoadCueSheet? && |parse(acts[k].content).errors| == 0
           && Run(parse, st, acts).cue == Some(parse(acts[k].content).sheet)
    decreases |acts|
  {
    if acts != [] {
      var next := Step(parse, st, acts[0]);
      CueOnlyFromCleanParse(parse, next, acts[1..]);
      var end := Run(parse, st, acts);
      assert end == Run(parse, next, acts[1..]);
      if end.cue != next.cue {
        var k :| 0 <= k < |acts[1..]| && acts[1..][k].LoadCueSheet? && |parse(acts[1..][k].content).errors| == 0
          && end.cue == Some(parse(acts[1..][k].content).sheet);
        assert acts[k + 1] == acts[1..][k];
      } else if next.cue != st.cue {
        assert acts[0].LoadCueSheet? && |parse(acts[0].content).errors| == 0;
      }
    }
  }

  /** A run without `updateAudioFile` leaves the audio file and its name alone. */
  lemma {:induction false} AudioUnchangedWithoutUpdate<Sheet, Error>(
    parse: string -> ParseResult<Sheet, Error>, st: State<Sheet>, acts: seq<Action>)
    requires forall k :: 0 <= k < |acts| ==> !acts[k].UpdateAudioFile?
    ensures Run(parse, st, acts).audioFile == st.audioFile
    ensures Run(parse, st, acts).audioFileName == st.audioFileName
    decreases |acts|
  {
    if acts != [] {
      AudioUnchangedWithoutUpdate(parse, Step(parse, st, acts[0]), acts[1..]);
    }
  }

  /** A run without `updateFrontCover` leaves the front cover and its name alone. */
  lemma {:induction false} CoverUnchangedWithoutUpdate<Sheet, Error>(
    parse: string -> ParseResult<Sheet, Error>, st: State<Sheet>, acts: seq<Action>)
    requires forall k :: 0 <= k < |acts| ==> !acts[k].UpdateFrontCover?
    ensures Run(parse, st, acts).frontCover == st.frontCover
    ensures Run(parse, st, acts).frontCoverFileName == st.frontCoverFileName
    decreases |acts|
  {
    if acts != [] {
      CoverUnchangedWithoutUpdate(parse, Step(parse, st, acts[0]), acts[1..]);
    }
  }

  /** The store follows `Run`: applying actions to a store yields the state `Run` predicts. */
  method ApplyAll<Sheet, Error>(store: SplitterStore<Sheet, Error>, acts: seq<Action>)
    modifies store
    ensures store.Snapshot() == Run(store.parse, old(store.Snapshot()), acts)
  {
    ghost var start := store.Snapshot();
    var i := 0;
    while i < |acts|
      invariant 0 <= i <= |acts|
      invariant store.Snapshot() == Run(store.parse, start, acts[..i])
    {
      ghost var before := store.Snapshot();
      match acts[i] {
        case UpdateAudioFile(file, fileName) => store.UpdateAudioFile(file, fileName);
        case LoadCueSheet(content) => store.LoadCueSheet(content);
        case UpdateFrontCover(picture, fileName) => store.UpdateFrontCover(picture, fileName);
      }
      assert store.Snapshot() == Run(store.parse, before, [acts[i]]);
      RunAppend(store.parse, start, acts[..i], [acts[i]]);
      assert acts[..i + 1] == acts[..i] + [acts[i]];
      i := i + 1;
    }
    assert acts[..i] == acts;
  }
}
