/**
  Saving the split tracks: one track as a download, several tracks into a
  folder, or several tracks as one ZIP archive.

  Encoding a track (`splitAudio`) and naming its file (`formatFileName`) are
  external; here they are the function parameters `encode` and `formatName`,
  each already applied to the loaded audio file, cue sheet, cover and naming
  format. `encode` returns `None` when the encoder produced no file. Every
  output name has each `/` replaced by `,`.
*/
module Saver {
  import opened Base

  /** A named file handed to the browser, the folder or the archive. */
  datatype OutputFile = OutputFile(name: string, data: Bytes)

  // ---------------------------------------------------------------------------
  // Output names
  // ---------------------------------------------------------------------------

  /** `name.replaceAll('/', ',')`. */
  function SanitizeFileName(name: string): (r: string)
    ensures |r| == |name|
    ensures forall i :: 0 <= i < |name| ==> r[i] == if name[i] == '/' then ',' else name[i]
    ensures '/' !in r
  {
    if name == [] then []
    else [if name[0] == '/' then ',' else name[0]] + SanitizeFileName(name[1..])
  }

  /** Sanitising twice is sanitising once. */
  lemma SanitizeIdempotent(name: string)
    ensures SanitizeFileName(SanitizeFileName(name)) == SanitizeFileName(name)
  {
  }

  /** A name with no `/` is kept as it is. */
  lemma SanitizeKeepsPlainName(name: string)
    requires '/' !in name
    ensures SanitizeFileName(name) == name
  {
  }

  // ---------------------------------------------------------------------------
  // The files a multi-track save produces
  // ---------------------------------------------------------------------------

  /** The tracks whose encoding yields a file, in their original order. */
  function Encodable<Track>(tracks: seq<Track>, encode: Track -> Option<Bytes>): (r: seq<Track>)
    ensures |r| <= |tracks|
    ensures forall k :: 0 <= k < |r| ==> encode(r[k]).Some?
    ensures forall t :: t in r ==> t in tracks
    ensures forall t :: t in tracks && encode(t).Some? ==> t in r
  {
    if tracks == [] then []
    else (if encode(tracks[0]).Some? then [tracks[0]] else []) + Encodable(tracks[1..], encode)
  }

  /** The encodable tracks of `xs + ys` are those of `xs` followed by those of `ys`: the filter keeps order. */
  lemma {:induction false} EncodableAppend<Track>(xs: seq<Track>, ys: seq<Track>, encode: Track -> Option<Bytes>)
    ensures Encodable(xs + ys, encode) == Encodable(xs, encode) + Encodable(ys, encode)
    decreases |xs|
  {
    if xs == [] {
      assert xs + ys == ys;
    } else {
      calc {
        Encodable(xs + ys, encode);
        { assert (xs + ys)[0] == xs[0]; assert (xs + ys)[1..] == xs[1..] + ys; }
        (if encode(xs[0]).Some? then [xs[0]] else []) + Encodable(xs[1..] + ys, encode);
        { EncodableAppend(xs[1..], ys, encode); }
        (if encode(xs[0]).Some? then [xs[0]] else []) + (Encodable(xs[1..], encode) + Encodable(ys, encode));
        ((if encode(xs[0]).Some? then [xs[0]] else []) + Encodable(xs[1..], encode)) + Encodable(ys, encode);
        Encodable(xs, encode) + Encodable(ys, encode);
      }
    }
  }

  /** A single track is kept exactly when it encodes. */
  lemma EncodableSingleton<Track>(t: Track, encode: Track -> Option<Bytes>)
    ensures Encodable([t], encode) == if encode(t).Some? then [t] else []
  {
    assert [t][1..] == [];
  }

  /**
    The filter keeps every copy of an encodable track and no copy of any other:
    each track occurs in the result as often as in the input when it encodes,
    and not at all otherwise.
  */
  lemma {:induction false} EncodableCounts<Track>(tracks: seq<Track>, encode: Track -> Option<Bytes>)
    ensures forall t ::
              multiset(Encodable(tracks, encode))[t] == if encode(t).Some? then multiset(tracks)[t] else 0
    decreases |tracks|
  {
    if tracks != [] {
      EncodableCounts(tracks[1..], encode);
      assert tracks == [tracks[0]] + tracks[1..];
      assert multiset(tracks) == multiset([tracks[0]]) + multiset(tracks[1..]);
    }
  }

  /** The named file that saving an encodable track produces. */
  function OutputOf<Track>(t: Track, encode: Track -> Option<Bytes>, formatName: Track -> string): OutputFile
    requires encode(t).Some?
  {
    OutputFile(SanitizeFileName(formatName(t)), encode(t).value)
  }

  /**
    The files a folder or ZIP save writes: exactly one per track whose encoding
    yields a file, named by the sanitised format, in track order.
  */
  function Outputs<Track>(tracks: seq<Track>, encode: Track -> Option<Bytes>, formatName: Track -> string): (r: seq<OutputFile>)
    ensures |r| <= |tracks|
  {
    if tracks == [] then []
    else
      var rest := Outputs(tracks[1..], encode, formatName);
      if encode(tracks[0]).Some? then [OutputOf(tracks[0], encode, formatName)] + rest else rest
  }

  /** The `k`-th file written is the file of the `k`-th encodable track, and its name has no `/`. */
  lemma {:induction false} OutputsAreEncodable<Track>(
    tracks: seq<Track>, encode: Track -> Option<Bytes>, formatName: Track -> string)
    ensures |Outputs(tracks, encode, formatName)| == |Encodable(tracks, encode)|
    ensures forall k :: 0 <= k < |Encodable(tracks, encode)| ==>
      Outputs(tracks, encode, formatName)[k] == OutputOf(Encodable(tracks, encode)[k], encode, formatName)
    ensures forall k :: 0 <= k < |Encodable(tracks, encode)| ==> '/' !in Outputs(tracks, encode, formatName)[k].name
    decreases |tracks|
  {
    if tracks != [] {
      OutputsAreEncodable(tracks[1..], encode, formatName);
    }
  }

  /** One more track adds its file at the end, or nothing when it fails to encode. */
  lemma OutputsSnoc<Track>(
    xs: seq<Track>, t: Track, encode: Track -> Option<Bytes>, formatName: Track -> string)
    ensures encode(t).None? ==> Outputs(xs + [t], encode, formatName) == Outputs(xs, encode, formatName)
    ensures encode(t).Some? ==>
      Outputs(xs + [t], encode, formatName) == Outputs(xs, encode, formatName) + [OutputOf(t, encode, formatName)]
  {
    OutputsAppend(xs, [t], encode, formatName);
    assert [t][1..] == [];
    assert Outputs([t], encode, formatName) == if encode(t).Some? then [OutputOf(t, encode, formatName)] else [];
  }

  /** Saving `xs` and then `ys` writes the files of `xs + ys`. */
  lemma {:induction false} OutputsAppend<Track>(
    xs: seq<Track>, ys: seq<Track>, encode: Track -> Option<Bytes>, formatName: Track -> string)
    ensures Outputs(xs + ys, encode, formatName) == Outputs(xs, encode, formatName) + Outputs(ys, encode, formatName)
    decreases |xs|
  {
    if xs == [] {
      assert xs + ys == ys;
    } else {
      assert (xs + ys)[0] == xs[0];
      assert (xs + ys)[1..] == xs[1..] + ys;
      OutputsAppend(xs[1..], ys, encode, formatName);
    }
  }

  /** When every track encodes, every track gets its file. */
  lemma {:induction false} AllEncodedAllSaved<Track>(
    tracks: seq<Track>, encode: Track -> Option<Bytes>, formatName: Track -> string)
    requires forall k :: 0 <= k < |tracks| ==> encode(tracks[k]).Some?
    ensures Encodable(tracks, encode) == tracks
    ensures |Outputs(tracks, encode, formatName)| == |tracks|
    decreases |tracks|
  {
    if tracks != [] {
      AllEncodedAllSaved(tracks[1..], encode, formatName);
      assert encode(tracks[0]).Some?;
      calc {
        Encodable(tracks, encode);
        [tracks[0]] + Encodable(tracks[1..], encode);
        [tracks[0]] + tracks[1..];
        tracks;
      }
    }
    OutputsAreEncodable(tracks, encode, formatName);
  }

  // ---------------------------------------------------------------------------
  // saveSingle
  // ---------------------------------------------------------------------------

  /** The message `saveSingle` throws when the encoder produced no file. */
  const EncodeFailed := "FLAC file isn't encoded successfully."

  /**
    `saveSingle`: the file to download, or the error thrown (and nothing
    downloaded) when encoding yields no file.
  */
  method SaveSingle<Track>(track: Track, encode: Track -> Option<Bytes>, formatName: Track -> string)
    returns (r: Result<OutputFile, string>)
    ensures encode(track).None? <==> r.Failure?
    ensures r.Failure? ==> r.error == EncodeFailed
    ensures r.Success? ==> r.value.data == encode(track).value
    ensures r.Success? ==> r.value.name == SanitizeFileName(formatName(track)) && '/' !in r.value.name
  {
    var file := encode(track);
    if file.None? {
      return Failure(EncodeFailed);
    }
    r := Success(OutputFile(SanitizeFileName(formatName(track)), file.value));
  }

  // ---------------------------------------------------------------------------
  // saveMultipleToFolder
  // ---------------------------------------------------------------------------

  /** A folder the user picked: file names to contents. */
  class Folder {
    var files: map<string, Bytes>

    constructor (files: map<string, Bytes>)
      ensures this.files == files
    {
      this.files := files;
    }

    /** Creates the file `name` if needed and replaces its contents with `data`. */
    method WriteFile(name: string, data: Bytes)
      modifies this
      ensures files == old(files)[name := data]
    {
      files := files[name := data];
    }
  }

  /** The folder's contents after writing `outs` one after another. */
  function WriteAll(files: map<string, Bytes>, outs: seq<OutputFile>): (r: map<string, Bytes>)
    decreases |outs|
  {
    if outs == [] then files
    else WriteAll(files, outs[..|outs| - 1])[outs[|outs| - 1].name := outs[|outs| - 1].data]
  }

  /** Writing one more file updates just that name. */
  lemma WriteAllSnoc(files: map<string, Bytes>, outs: seq<OutputFile>, o: OutputFile)
    ensures WriteAll(files, outs + [o]) == WriteAll(files, outs)[o.name := o.data]
  {
    assert (outs + [o])[..|outs|] == outs;
  }

  /**
    Writing `outs` adds exactly their names to the folder, and every other file
    keeps its contents.
  */
  lemma {:induction false} WriteAllFrame(files: map<string, Bytes>, outs: seq<OutputFile>)
    ensures WriteAll(files, outs).Keys == files.Keys + set o | o in outs :: o.name
    ensures forall n :: n in files && (forall k :: 0 <= k < |outs| ==> outs[k].name != n) ==>
      WriteAll(files, outs)[n] == files[n]
    decreases |outs|
  {
    if outs != [] {
      var init := outs[..|outs| - 1];
      WriteAllFrame(files, init);
      assert forall o :: o in outs <==> o in init || o == outs[|outs| - 1];
      forall n | n in files && (forall k :: 0 <= k < |outs| ==> outs[k].name != n)
        ensures WriteAll(files, outs)[n] == files[n]
      {
        assert outs[|outs| - 1].name != n;
        assert forall k :: 0 <= k < |init| ==> init[k] == outs[k];
      }
    }
  }

  /** Files with distinct names each end up with their own contents. */
  lemma {:induction false} WriteAllDistinct(files: map<string, Bytes>, outs: seq<OutputFile>, k: nat)
    requires k < |outs|
    requires forall i, j :: 0 <= i < j < |outs| ==> outs[i].name != outs[j].name
    ensures outs[k].name in WriteAll(files, outs) && WriteAll(files, outs)[outs[k].name] == outs[k].data
    decreases |outs|
  {
    var init := outs[..|outs| - 1];
    if k < |outs| - 1 {
      WriteAllDistinct(files, init, k);
      assert init[k] == outs[k];
    }
  }

  /**
    `saveMultipleToFolder`: writes one file per track whose encoding yields a
    file, named by the sanitised format; tracks that fail are skipped.
  */
  method SaveMultipleToFolder<Track>(
    folder: Folder, tracks: seq<Track>, encode: Track -> Option<Bytes>, formatName: Track -> string)
    modifies folder
    ensures folder.files == WriteAll(old(folder.files), Outputs(tracks, encode, formatName))
  {
    ghost var start := folder.files;
    ghost var written: seq<OutputFile> := [];
    for i := 0 to |tracks|
      invariant written == Outputs(tracks[..i], encode, formatName)
      invariant folder.files == WriteAll(start, written)
    {
      var track := tracks[i];
      OutputsSnoc(tracks[..i], track, encode, formatName);
      assert tracks[..i + 1] == tracks[..i] + [track];
      var file := encode(track);
      if file.None? {
        continue;
      }
      var out := OutputFile(SanitizeFileName(formatName(track)), file.value);
      WriteAllSnoc(start, written, out);
      folder.WriteFile(out.name, out.data);
      written := written + [out];
    }
    assert tracks[..|tracks|] == tracks;
  }

  // ---------------------------------------------------------------------------
  // saveMultipleAsZip
  // ---------------------------------------------------------------------------

  /** One call of the archive's data callback: an error, or a chunk and whether it is the last. */
  datatype ZipEvent = ZipEvent(error: Option<string>, data: Bytes, final: bool)

  /** The state of the promise that gathers the archive's chunks. */
  datatype Settlement = Pending | Resolved(chunks: seq<Bytes>) | Rejected(error: string)

  /**
    The chunk array and its promise. Each callback either rejects on an error
    or appends its chunk and resolves on the final one; a promise that has
    settled stays as it is.
  */
  class ChunkCollector {
    var chunks: seq<Bytes>
    var settlement: Settlement

    constructor ()
      ensures chunks == [] && settlement == Pending
    {
      chunks := [];
      settlement := Pending;
    }

    method OnData(ev: ZipEvent)
      modifies this
      ensures ev.error.Some? ==> chunks == old(chunks)
      ensures ev.error.Some? ==>
        settlement == if old(settlement).Pending? then Rejected(ev.error.value) else old(settlement)
      ensures ev.error.None? ==> chunks == old(chunks) + [ev.data]
      ensures ev.error.None? ==>
        settlement == if old(settlement).Pending? && ev.final then Resolved(chunks) else old(settlement)
    {
      if ev.error.Some? {
        if settlement.Pending? {
          settlement := Rejected(ev.error.value);
        }
        return;
      }
      chunks := chunks + [ev.data];
      if ev.final && settlement.Pending? {
        settlement := Resolved(chunks);
      }
    }
  }

  /** The chunks of `events`, in emission order. */
  function ChunksOf(events: seq<ZipEvent>): (r: seq<Bytes>)
    ensures |r| == |events|
    ensures forall k :: 0 <= k < |events| ==> r[k] == events[k].data
  {
    if events == [] then [] else [events[0].data] + ChunksOf(events[1..])
  }

  /** How the promise settles once `events` follow the chunks `acc` already gathered. */
  function Settle(acc: seq<Bytes>, events: seq<ZipEvent>): Settlement
    decreases |events|
  {
    if events == [] then Pending
    else if events[0].error.Some? then Rejected(events[0].error.value)
    else if events[0].final then Resolved(acc + [events[0].data])
    else Settle(acc + [events[0].data], events[1..])
  }

  /** No callback among the first `k` carried an error or the final chunk. */
  ghost predicate Quiet(events: seq<ZipEvent>, k: nat)
    requires k <= |events|
  {
    forall j :: 0 <= j < k ==> events[j].error.None? && !events[j].final
  }

  /**
    The promise settles at the first callback with an error or the final chunk:
    it rejects with that error, or resolves with every chunk emitted up to and
    including the final one, in order; without such a callback it stays pending.
  */
  lemma {:induction false} SettleAtFirstSignal(acc: seq<Bytes>, events: seq<ZipEvent>, k: nat)
    requires k < |events| && Quiet(events, k)
    ensures events[k].error.Some? ==> Settle(acc, events) == Rejected(events[k].error.value)
    ensures events[k].error.None? && events[k].final ==>
      Settle(acc, events) == Resolved(acc + ChunksOf(events[..k + 1]))
    ensures events[k].error.None? && !events[k].final ==>
      Settle(acc, events) == Settle(acc + ChunksOf(events[..k + 1]), events[k + 1..])
  {
    SettleSkipsQuiet(acc, events, k);
    var tail := events[k..];
    assert tail[0] == events[k] && tail[1..] == events[k + 1..];
    assert events[..k + 1] == events[..k] + [events[k]];
    ChunksOfAppend(events[..k], [events[k]]);
    assert acc + ChunksOf(events[..k]) + [events[k].data] == acc + ChunksOf(events[..k + 1]);
  }

  /** Chunks of a concatenation are the concatenated chunks. */
  lemma {:induction false} ChunksOfAppend(xs: seq<ZipEvent>, ys: seq<ZipEvent>)
    ensures ChunksOf(xs + ys) == ChunksOf(xs) + ChunksOf(ys)
  {
    assert |ChunksOf(xs + ys)| == |ChunksOf(xs) + ChunksOf(ys)|;
    forall k | 0 <= k < |xs + ys| ensures ChunksOf(xs + ys)[k] == (ChunksOf(xs) + ChunksOf(ys))[k] {
      if k < |xs| {
        assert ChunksOf(xs)[k] == xs[k].data;
      } else {
        assert ChunksOf(ys)[k - |xs|] == ys[k - |xs|].data;
      }
    }
  }

  /** Quiet callbacks only append their chunks: the promise settles as if they had already been gathered. */
  lemma {:induction false} SettleSkipsQuiet(acc: seq<Bytes>, events: seq<ZipEvent>, k: nat)
    requires k <= |events| && Quiet(events, k)
    ensures Settle(acc, events) == Settle(acc + ChunksOf(events[..k]), events[k..])
    decreases k
  {
    if k == 0 {
      assert acc + ChunksOf(events[..0]) == acc;
    } else {
      var rest := events[1..];
      assert Quiet(rest, k - 1) by {
        forall j | 0 <= j < k - 1 ensures rest[j].error.None? && !rest[j].final {
          assert rest[j] == events[j + 1];
        }
      }
      assert events[0].error.None? && !events[0].final;
      SettleSkipsQuiet(acc + [events[0].data], rest, k - 1);
      assert rest[k - 1..] == events[k..];
      assert events[..k] == [events[0]] + rest[..k - 1];
      ChunksOfAppend([events[0]], rest[..k - 1]);
      assert acc + [events[0].data] + ChunksOf(rest[..k - 1]) == acc + ChunksOf(events[..k]);
    }
  }

  /** The promise stays pending exactly when no callback carries an error or the final chunk. */
  lemma {:induction false} PendingIffQuiet(acc: seq<Bytes>, events: seq<ZipEvent>)
    ensures Settle(acc, events) == Pending <==> Quiet(events, |events|)
    decreases |events|
  {
    if events != [] {
      PendingIffQuiet(acc + [events[0].data], events[1..]);
      assert Quiet(events, |events|) <==>
        events[0].error.None? && !events[0].final && Quiet(events[1..], |events| - 1) by {
        if events[0].error.None? && !events[0].final && Quiet(events[1..], |events| - 1) {
          forall j | 0 < j < |events| ensures events[j].error.None? && !events[j].final {
            assert events[j] == events[1..][j - 1];
          }
        }
      }
    }
  }

  /** Feeding the callbacks to a fresh collector settles its promise as `Settle` says. */
  method CollectChunks(events: seq<ZipEvent>) returns (r: Settlement)
    ensures r == Settle([], events)
  {
    var collector := new ChunkCollector();
    for i := 0 to |events|
      invariant collector.settlement.Pending? ==>
        collector.chunks == ChunksOf(events[..i]) && Settle([], events) == Settle(collector.chunks, events[i..])
      invariant !collector.settlement.Pending? ==> collector.settlement == Settle([], events)
    {
      var ev := events[i];
      ghost var before := collector.chunks;
      ghost var wasPending := collector.settlement.Pending?;
      collector.OnData(ev);
      if wasPending {
        assert events[i..][0] == ev && events[i..][1..] == events[i + 1..];
        if ev.error.None? {
          assert ChunksOf(events[..i + 1]) == ChunksOf(events[..i]) + [ev.data] by {
            assert events[..i + 1] == events[..i] + [ev];
          }
        }
      }
    }
    r := collector.settlement;
  }

  /** The name of the archive a ZIP save downloads. */
  const ArchiveName := "tracks.zip"

  /** The bytes of a `Blob` made of `chunks`: their concatenation. */
  function Concat(chunks: seq<Bytes>): Bytes {
    if chunks == [] then [] else chunks[0] + Concat(chunks[1..])
  }

  /** The blob of `xs + ys` holds the bytes of `xs`'s blob followed by those of `ys`'s. */
  lemma {:induction false} ConcatAppend(xs: seq<Bytes>, ys: seq<Bytes>)
    ensures Concat(xs + ys) == Concat(xs) + Concat(ys)
    decreases |xs|
  {
    if xs == [] {
      assert xs + ys == ys;
    } else {
      calc {
        Concat(xs + ys);
        { assert (xs + ys)[0] == xs[0]; assert (xs + ys)[1..] == xs[1..] + ys; }
        xs[0] + Concat(xs[1..] + ys);
        { ConcatAppend(xs[1..], ys); }
        xs[0] + (Concat(xs[1..]) + Concat(ys));
        (xs[0] + Concat(xs[1..])) + Concat(ys);
        Concat(xs) + Concat(ys);
      }
    }
  }

  /** The blob of a single chunk holds exactly that chunk's bytes. */
  lemma ConcatSingleton(c: Bytes)
    ensures Concat([c]) == c
  {
    assert [c][1..] == [];
  }

  /** The outcome of a ZIP save: the downloaded archive, the error thrown, or a wait that never ends. */
  datatype ZipSave = Saved(file: OutputFile) | Thrown(error: string) | NeverSettles

  /** The archive entries, collected in the order they are added. */
  class ZipWriter {
    var entries: seq<OutputFile>

    constructor ()
      ensures entries == []
    {
      entries := [];
    }

    method Add(entry: OutputFile)
      modifies this
      ensures entries == old(entries) + [entry]
    {
      entries := entries + [entry];
    }
  }

  /**
    `saveMultipleAsZip` adds one archive entry per track whose encoding yields a
    file, named by the sanitised format, then waits for the archiver's output.
    Its `zipOutput` parameter stands for the archiver: the callbacks it makes for
    the given entries. The save downloads `tracks.zip` holding all chunks in
    emission order, throws the archiver's error, or never finishes.
  */
  method SaveMultipleAsZip<Track>(
    tracks: seq<Track>, encode: Track -> Option<Bytes>, formatName: Track -> string,
    zipOutput: seq<OutputFile> -> seq<ZipEvent>)
    returns (r: ZipSave)
    ensures var settled := Settle([], zipOutput(Outputs(tracks, encode, formatName)));
      && (settled.Pending? <==> r == NeverSettles)
      && (settled.Rejected? ==> r == Thrown(settled.error))
      && (settled.Resolved? ==> r == Saved(OutputFile(ArchiveName, Concat(settled.chunks))))
  {
    var zip := new ZipWriter();
    for i := 0 to |tracks|
      invariant zip.entries == Outputs(tracks[..i], encode, formatName)
    {
      var track := tracks[i];
      OutputsSnoc(tracks[..i], track, encode, formatName);
      assert tracks[..i + 1] == tracks[..i] + [track];
      var file := encode(track);
      if file.None? {
        continue;
      }
      zip.Add(OutputFile(SanitizeFileName(formatName(track)), file.value));
    }
    assert tracks[..|tracks|] == tracks;
    var settlement := CollectChunks(zipOutput(zip.entries));
    match settlement
    case Pending => r := NeverSettles;
    case Rejected(error) => r := Thrown(error);
    case Resolved(chunks) => r := Saved(OutputFile(ArchiveName, Concat(chunks)));
  }
}
