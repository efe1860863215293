/**
 The recordings screen: the list of saved recordings, the rename editor and
 the latest-loudness cell, with the file-system and audio calls replaced by
 the outcomes they report.
 */
module Recordings {
  import opened Wrappers
  import opened FileNames

  /** One entry of the recordings list: where the file is and the name shown for it. */
  datatype Recording = Recording(uri: string, name: string)

  /** How many characters of a name the rename editor starts with. */
  const EditPrefixLength: nat := 15

  /** The list built from a directory listing: each file keeps its path and is shown without its extension. */
  function DisplayEntries(files: seq<Recording>): (r: seq<Recording>)
    ensures |r| == |files|
    ensures forall i :: 0 <= i < |files| ==>
              r[i].uri == files[i].uri && r[i].name == StripExtension(files[i].name)
  {
    if files == [] then []
    else [Recording(files[0].uri, StripExtension(files[0].name))] + DisplayEntries(files[1..])
  }

  /** The list with every entry at `uri` filtered out. */
  function WithoutUri(list: seq<Recording>, uri: string): (r: seq<Recording>)
    ensures |r| <= |list|
  {
    if list == [] then []
    else (if list[0].uri == uri then [] else [list[0]]) + WithoutUri(list[1..], uri)
  }

  /** An entry remains exactly when it was there and is not at `uri`. */
  lemma {:induction false} WithoutUriMembers(list: seq<Recording>, uri: string, e: Recording)
    ensures e in WithoutUri(list, uri) <==> e in list && e.uri != uri
  {
    if list != [] {
      WithoutUriMembers(list[1..], uri, e);
      assert list == [list[0]] + list[1..];
    }
  }

  /** Nothing at `uri` means nothing is removed; something at `uri` means the list gets shorter. */
  lemma {:induction false} WithoutUriLength(list: seq<Recording>, uri: string)
    ensures (forall e :: e in list ==> e.uri != uri) ==> WithoutUri(list, uri) == list
    ensures (exists e :: e in list && e.uri == uri) ==> |WithoutUri(list, uri)| < |list|
  {
    if list != [] {
      WithoutUriLength(list[1..], uri);
      assert list == [list[0]] + list[1..];
      assert forall e :: e in list[1..] ==> e in list;
    }
  }

  /** Filtering works piecewise, so the entries that stay keep their order. */
  lemma {:induction false} WithoutUriAppend(a: seq<Recording>, b: seq<Recording>, uri: string)
    ensures WithoutUri(a + b, uri) == WithoutUri(a, uri) + WithoutUri(b, uri)
  {
    if a == [] {
      assert a + b == b;
    } else {
      var head := if a[0].uri == uri then [] else [a[0]];
      var ab := a + b;
      assert ab[0] == a[0] && ab[1..] == a[1..] + b;
      calc {
        WithoutUri(ab, uri);
        head + WithoutUri(a[1..] + b, uri);
        { WithoutUriAppend(a[1..], b, uri); }
        head + (WithoutUri(a[1..], uri) + WithoutUri(b, uri));
        (head + WithoutUri(a[1..], uri)) + WithoutUri(b, uri);
      }
    }
  }


  /** The state of the recordings screen that its handlers change. */
  class RecorderScreen {
    var recordings: seq<Recording>
    var editIndex: Option<nat>
    var editText: string
    /** The last metering value reported, shared with the waveform display. */
    var latestLoudness: Option<real>
    var isRecording: bool
    var recordingUri: Option<string>

    constructor ()
      ensures recordings == [] && editIndex == None && editText == ""
      ensures latestLoudness == None && !isRecording && recordingUri == None
    {
      recordings, editIndex, editText := [], None, "";
      latestLoudness, isRecording, recordingUri := None, false, None;
    }

    /** Rebuilds the list from the directory listing; None stands for a listing that failed. */
    method LoadRecordings(listing: Option<seq<Recording>>)
      modifies this`recordings
      ensures listing.Some? ==> recordings == DisplayEntries(listing.value)
      ensures listing.None? ==> recordings == old(recordings)
    {
      if listing.Some? {
        recordings := DisplayEntries(listing.value);
      }
    }

    /** A new metering reading; a missing one keeps the previous value. */
    method UpdateMetering(metering: Option<real>)
      modifies this`latestLoudness
      ensures metering.Some? ==> latestLoudness == metering
      ensures metering.None? ==> latestLoudness == old(latestLoudness)
    {
      if metering.Some? {
        latestLoudness := metering;
      }
    }

    method Record()
      modifies this`isRecording
      ensures isRecording
    {
      isRecording := true;
    }

    /**
     Stops recording. `recorderUri` is where the recorder left the clip and
     `movedUri` where the clip is after the move into the recordings
     directory, None when that move failed. The moved file is appended under
     its own file name.
     */
    method StopRecording(recorderUri: Option<string>, movedUri: Option<string>)
      modifies this`isRecording, this`recordings, this`recordingUri
      ensures !isRecording
      ensures recorderUri.None? || recorderUri == Some("") || movedUri.None? ==>
                recordings == old(recordings) && recordingUri == old(recordingUri)
      ensures recorderUri.Some? && recorderUri.value != "" && movedUri.Some? ==>
                recordings == old(recordings) + [Recording(movedUri.value, FileName(movedUri.value))] &&
                recordingUri == recorderUri
    {
      isRecording := false;
      if recorderUri.None? || recorderUri.value == "" {
        return;
      }
      if movedUri.None? {
        return;
      }
      var moved := movedUri.value;
      recordings := recordings + [Recording(moved, FileName(moved))];
      recordingUri := recorderUri;
    }

    /** Opens the editor on the entry at `index`, starting from the first characters of its name. */
    method EnterEdit(index: nat)
      requires index < |recordings|
      modifies this`editIndex, this`editText
      ensures editIndex == Some(index)
      ensures editText <= recordings[index].name
      ensures |editText| == if |recordings[index].name| < EditPrefixLength
                            then |recordings[index].name| else EditPrefixLength
    {
      var name := recordings[index].name;
      editIndex := Some(index);
      editText := if |name| < EditPrefixLength then name else name[..EditPrefixLength];
    }

    method ChangeEditText(text: string)
      modifies this`editText
      ensures editText == text
    {
      editText := text;
    }

    method CancelEdit()
      modifies this`editIndex, this`editText
      ensures editIndex == None && editText == ""
    {
      editIndex := None;
      editText := "";
    }

    /**
     Renames the entry at `index` to the edited text inside `dir`, keeping
     as extension the last dot-separated part of the shown name; `moveOk`
     says whether the file system moved the file. The editor closes either way.
     */
    method SaveEdit(index: nat, dir: string, moveOk: bool)
      requires index < |recordings|
      modifies this`recordings, this`editIndex, this`editText
      ensures editIndex == None && editText == ""
      ensures !moveOk ==> recordings == old(recordings)
      ensures moveOk ==> |recordings| == |old(recordings)|
      ensures moveOk ==>
                recordings[index] ==
                Recording(RenamedPath(dir, old(editText), old(recordings[index].name)), old(editText))
      ensures moveOk ==> forall j :: 0 <= j < |recordings| && j != index ==> recordings[j] == old(recordings[j])
    {
      var file := recordings[index];
      var newPath := RenamedPath(dir, editText, file.name);
      if moveOk {
        recordings := recordings[index := Recording(newPath, editText)];
      }
      editIndex := None;
      editText := "";
    }

    /**
     The rename with the extension taken from the entry's own path, which
     keeps the file's real extension whatever name is shown.
     */
    method SaveEditKeepingExtension(index: nat, dir: string, moveOk: bool)
      requires index < |recordings|
      modifies this`recordings, this`editIndex, this`editText
      ensures editIndex == None && editText == ""
      ensures !moveOk ==> recordings == old(recordings)
      ensures moveOk ==> |recordings| == |old(recordings)|
      ensures moveOk ==>
                recordings[index] ==
                Recording(KeptExtensionPath(dir, old(editText), old(recordings[index].uri)), old(editText))
      ensures moveOk ==> forall j :: 0 <= j < |recordings| && j != index ==> recordings[j] == old(recordings[j])
    {
      var file := recordings[index];
      var newPath := KeptExtensionPath(dir, editText, file.uri);
      if moveOk {
        recordings := recordings[index := Recording(newPath, editText)];
      }
      editIndex := None;
      editText := "";
    }

    /** Deletes the file of the entry at `index`; `deleteOk` says whether the file system deleted it. */
    method DeleteRecording(index: nat, deleteOk: bool)
      requires index < |recordings|
      modifies this`recordings
      ensures deleteOk ==> recordings == WithoutUri(old(recordings), old(recordings[index].uri))
      ensures deleteOk ==> |recordings| < |old(recordings)|
      ensures deleteOk ==> forall e :: e in recordings ==> e.uri != old(recordings[index].uri)
      ensures !deleteOk ==> recordings == old(recordings)
    {
      var uri := recordings[index].uri;
      if deleteOk {
        assert recordings[index] in recordings;
        WithoutUriLength(recordings, uri);
        forall e | e in WithoutUri(recordings, uri) ensures e.uri != uri {
          WithoutUriMembers(recordings, uri, e);
        }
        recordings := WithoutUri(recordings, uri);
      }
    }
  }
}
