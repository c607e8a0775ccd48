/** The in-memory edits `ModManagerApp` makes to a loaded list of values: the
    "Unlock All Characters" button, the per-row value edit of the table, and
    loading a file into the table. */
module App {
  import opened XmlEvents
  import opened XmlHandler
  import opened Extraction

  /** The field the unlock button looks for, and what it writes there. */
  const UnlockField: string := "PointsToUnlock"
  const UnlockedPoints: string := "0"

  /** Entry `i` is the first one called `name`. */
  predicate IsFirstNamed(values: seq<XmlValue>, name: string, i: nat) {
    && i < |values|
    && values[i].name == name
    && forall l :: 0 <= l < i ==> values[l].name != name
  }

  /** `iter().find(|v| v.name == name)`, as a position. */
  function FindByName(values: seq<XmlValue>, name: string): (r: Option<nat>)
    ensures r.Some? ==> IsFirstNamed(values, name, r.value)
    ensures r.None? ==> forall j :: 0 <= j < |values| ==> values[j].name != name
  {
    if |values| == 0 then None
    else if values[0].name == name then Some(0)
    else match FindByName(values[1..], name)
      case None => None
      case Some(i) => Some(i + 1)
  }

  /** Replacing the text of row `i`: that row's value becomes `text`, its path
      and name stay, and every other row is untouched. */
  function SetValue(values: seq<XmlValue>, i: nat, text: string): (r: seq<XmlValue>)
    requires i < |values|
    ensures |r| == |values|
    ensures r[i].value == text && r[i].path == values[i].path && r[i].name == values[i].name
    ensures forall j :: 0 <= j < |values| && j != i ==> r[j] == values[j]
  {
    values[i := values[i].(value := text)]
  }

  /** The per-row edit of the table: the row takes the edited text, then
      `modify_value` is told about it; its answer changes nothing in the list. */
  function EditRow(values: seq<XmlValue>, i: nat, text: string): (r: seq<XmlValue>)
    requires i < |values|
    ensures |r| == |values|
    ensures r[i] == XmlValue(values[i].path, values[i].name, text)
    ensures forall j :: 0 <= j < |values| && j != i ==> r[j] == values[j]
  {
    var edited := SetValue(values, i, text);
    var _ := ModifyValue(edited[i].path, edited[i].name, edited[i].value);
    edited
  }

  /** Editing the same row twice keeps only the second edit. */
  lemma EditRowLastWins(values: seq<XmlValue>, i: nat, a: string, b: string)
    requires i < |values|
    ensures EditRow(EditRow(values, i, a), i, b) == EditRow(values, i, b)
  {
  }

  /** Edits of different rows commute. */
  lemma EditRowsCommute(values: seq<XmlValue>, i: nat, j: nat, a: string, b: string)
    requires i < |values| && j < |values| && i != j
    ensures EditRow(EditRow(values, i, a), j, b) == EditRow(EditRow(values, j, b), i, a)
  {
  }

  /** The unlock step for one loaded file: the first `PointsToUnlock` entry is
      set to "0" and the edited list is handed to the saver; with no such entry
      nothing is saved. Later entries of the same name, and every path and
      name, stay as they were. */
  function Unlock(values: seq<XmlValue>): (r: Option<seq<XmlValue>>)
    ensures r.None? <==> forall j :: 0 <= j < |values| ==> values[j].name != UnlockField
    ensures r.Some? ==> |r.value| == |values|
    ensures r.Some? ==> forall j :: 0 <= j < |values| ==>
              && r.value[j].path == values[j].path
              && r.value[j].name == values[j].name
              && (if IsFirstNamed(values, UnlockField, j) then r.value[j].value == UnlockedPoints
                  else r.value[j] == values[j])
  {
    match FindByName(values, UnlockField)
    case None => None
    case Some(i) => Some(SetValue(values, i, UnlockedPoints))
  }

  /** Unlocking is idempotent: an unlocked list unlocks to itself. */
  lemma UnlockIdempotent(values: seq<XmlValue>, unlocked: seq<XmlValue>)
    requires Unlock(values) == Some(unlocked)
    ensures Unlock(unlocked) == Some(unlocked)
  {
    var i := FindByName(values, UnlockField).value;
    assert IsFirstNamed(unlocked, UnlockField, i);
    assert FindByName(unlocked, UnlockField) == Some(i);
    assert unlocked[i := unlocked[i].(value := UnlockedPoints)] == unlocked;
  }

  /** A request to write `values` back to the `file`-th listed file. */
  datatype SaveRequest = SaveRequest(file: nat, values: seq<XmlValue>)

  /** The unlock step for one character file: load it and, if that works,
      unlock the loaded list; `Some` is the list handed to the saver. */
  function UnlockFile(events: seq<Event>, dec: Decoder): Option<seq<XmlValue>>
  {
    match Extract(events, dec)
    case Err(_) => None
    case Ok(values) => Unlock(values)
  }

  /** A character file is saved exactly when no event before its first Eof
      aborts the load and some text before that Eof yields a value inside a
      `PointsToUnlock` element. The list saved is the loaded list with its
      first `PointsToUnlock` entry set to "0" and every other entry as loaded. */
  lemma UnlockFileSavesWhenUnlockable(events: seq<Event>, dec: Decoder)
    ensures UnlockFile(events, dec).Some? <==>
              && (forall i :: 0 <= i < EofIndex(events) ==> !FailsAt(events, i, dec))
              && exists i :: 0 <= i < EofIndex(events) && Emits(events, i, dec) && InsideTag(events, i, dec, UnlockField)
    ensures UnlockFile(events, dec).Some? ==>
              && Extract(events, dec).Ok?
              && var loaded := Extract(events, dec).value;
              var saved := UnlockFile(events, dec).value;
              && |saved| == |loaded|
              && forall j :: 0 <= j < |loaded| ==>
                   saved[j] == if IsFirstNamed(loaded, UnlockField, j) then loaded[j].(value := UnlockedPoints) else loaded[j]
  {
    ExtractFailsIffSomeEventFails(events, dec);
    if Extract(events, dec).Ok? {
      LoadedNameIffTag(events, dec, UnlockField);
    }
  }

  /** The "Unlock All Characters" button over the listed character files, each
      given as the events its reader yields: every file that loads and has a
      `PointsToUnlock` entry is saved with its unlocked list, in listing order;
      files that fail to load or have no such entry are skipped. */
  function UnlockAllCharacters(files: seq<seq<Event>>, dec: Decoder): (r: seq<SaveRequest>)
    ensures forall k :: 0 <= k < |r| ==>
              r[k].file < |files| && UnlockFile(files[r[k].file], dec) == Some(r[k].values)
    ensures forall k, l :: 0 <= k < l < |r| ==> r[k].file < r[l].file
  {
    if |files| == 0 then []
    else
      var n := |files| - 1;
      var earlier := UnlockAllCharacters(files[..n], dec);
      assert forall f :: 0 <= f < n ==> files[..n][f] == files[f];
      match UnlockFile(files[n], dec)
      case None => earlier
      case Some(unlocked) =>
        var r := earlier + [SaveRequest(n, unlocked)];
        r
  }

  /** No unlockable character file is skipped. */
  lemma {:induction false} UnlockAllSkipsNoUnlockableFile(files: seq<seq<Event>>, f: nat, dec: Decoder)
    requires f < |files| && UnlockFile(files[f], dec).Some?
    ensures exists k :: 0 <= k < |UnlockAllCharacters(files, dec)| && UnlockAllCharacters(files, dec)[k].file == f
  {
    var n := |files| - 1;
    var earlier := UnlockAllCharacters(files[..n], dec);
    var r := UnlockAllCharacters(files, dec);
    if f == n {
      assert r == earlier + [SaveRequest(n, UnlockFile(files[n], dec).value)];
      assert r[|earlier|].file == f;
    } else {
      assert files[..n][f] == files[f];
      UnlockAllSkipsNoUnlockableFile(files[..n], f, dec);
      var k :| 0 <= k < |earlier| && earlier[k].file == f;
      assert r[k] == earlier[k];
    }
  }

  /** The "Load XML" button: when no event before the first Eof aborts the
      load, the table shows every value those events yield; otherwise it keeps
      whatever it held, edits included. */
  function LoadIntoTable(table: Option<seq<XmlValue>>, events: seq<Event>, dec: Decoder): (r: Option<seq<XmlValue>>)
    ensures (exists i :: 0 <= i < EofIndex(events) && FailsAt(events, i, dec)) ==> r == table
    ensures (forall i :: 0 <= i < EofIndex(events) ==> !FailsAt(events, i, dec)) ==>
              r == Some(Leaves(events, EofIndex(events), dec))
  {
    ExtractMatchesReference(events, dec);
    match Extract(events, dec)
    case Ok(values) => Some(values)
    case Err(_) => table
  }
}
