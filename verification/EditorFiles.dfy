/** Editing a file kept by FlareFS: saving, remounting, crashing while saving. */
module EditorFiles {
  import opened Machine
  import opened FlareLayout
  import opened FlareFsModel
  import opened FlareFsInvariant
  import Runs = FlareFsRuns
  import opened Editor

  const FILENAME_LEN := 64

  /** g_filename: strncpy cuts the name after 63 bytes. */
  function FileName(name: seq<Byte>): seq<Byte> {
    if |name| < FILENAME_LEN then name else name[..FILENAME_LEN - 1]
  }

  /** The text editor_start shows for a file table. */
  function Opened(files: map<seq<Byte>, seq<Byte>>, name: seq<Byte>): Text {
    var f := FileName(name);
    Text(if f in files then Loaded(files[f]) else [[]], 0, 0)
  }

  /** editor_save on a writable file system. */
  function SaveOp(name: seq<Byte>, ls: seq<Line>): Runs.Op {
    Runs.Put(FileName(name), Saved(ls), false)
  }

  /** editor_start on the file table itself. */
  method StartLines(files: seq<FsFile>, name: seq<Byte>) returns (t: Text)
    requires DistinctNames(files)
    ensures t == Opened(Contents(files), name) && Valid(t)
  {
    hide Loaded, FindSlot, Contents;
    var f := FileName(name);
    Runs.FindSlotIffMember(files, f);
    t := Text([[]], 0, 0);
    var i := 0;
    while i < |files|
      invariant 0 <= i <= |files| && forall j :: 0 <= j < i ==> files[j].name != f
      invariant t == Text([[]], 0, 0)
    {
      if files[i].name == f {
        LoadedEditable(files[i].data);
        ContentsAt(files, i);
        return Text(Loaded(files[i].data), 0, 0);
      }
      i := i + 1;
    }
  }

  lemma RunFiles(st: Runs.State, a: Runs.Abs, ops: seq<Runs.Op>)
    requires Runs.Refines(st, a) && forall i :: 0 <= i < |ops| ==> Runs.OpOk(ops[i])
    ensures Contents(Runs.Run(st, ops).fs.files) == Runs.AbsRun(a, ops).files
  {
    hide Runs.Run, Runs.AbsRun, Inv, Contents;
    Runs.RunRefines(st, a, ops);
  }

  lemma SavedInMap(a: Runs.Abs, name: seq<Byte>, ls: seq<Line>, heap: Heap)
    requires Runs.AbsAccepts(a, FileName(name), Saved(ls), false)
    ensures Runs.AbsRun(a, [SaveOp(name, ls), Runs.Remount(heap)]).files == a.files[FileName(name) := Saved(ls)]
  {
    hide Saved, Runs.AbsAccepts, SectorsFor;
    var ops := [SaveOp(name, ls), Runs.Remount(heap)];
    assert ops[..1] == [SaveOp(name, ls)] && [SaveOp(name, ls)][..0] == [];
    assert Runs.AbsRun(a, [SaveOp(name, ls)]) == Runs.AbsStep(a, SaveOp(name, ls));
  }

  /** After a save the file system accepts and a remount, the editor opens on the same lines exactly
      when they and their newlines fill at most 16384 bytes. */
  lemma SaveThenOpenIff(st: Runs.State, a: Runs.Abs, name: seq<Byte>, ls: seq<Line>, heap: Heap)
    requires Runs.Refines(st, a) && Editable(ls)
    requires Runs.AbsAccepts(a, FileName(name), Saved(ls), false)
    ensures var now := Runs.Run(st, [SaveOp(name, ls), Runs.Remount(heap)]);
      Opened(Contents(now.fs.files), name).lines == ls <==> |Before(ls)| <= SAVE_BUFFER
  {
    hide Loaded, Saved, FileName, Editable, Runs.AbsAccepts, Runs.Refines, Runs.Step, Runs.Run, Runs.AbsRun, Contents;
    SaveRoundTripIff(ls);
    SavedInMap(a, name, ls, heap);
    RunFiles(st, a, [SaveOp(name, ls), Runs.Remount(heap)]);
  }

  /** A crash at any point of a save: after the remount the editor opens on the text of before, or
      on the lines that fitted the save buffer, which are all of them when the text does. */
  lemma SaveCrash(st: Runs.State, a: Runs.Abs, name: seq<Byte>, ls: seq<Line>, k: nat, heap: Heap)
    requires Runs.Refines(st, a) && Editable(ls)
    requires k <= |Runs.OpTrace(st.fs, SaveOp(name, ls))|
    ensures var m := Mount(FlareFsModel.Apply(st.disk, Runs.OpTrace(st.fs, SaveOp(name, ls))[..k]), heap);
      && m.Some?
      && (var t := Opened(Contents(m.value.files), name);
          t == Opened(a.files, name) || t.lines == ls[..Fitting(ls, 0)])
    ensures |Before(ls)| <= SAVE_BUFFER ==> ls[..Fitting(ls, 0)] == ls
  {
    hide Loaded, Saved, Before, Runs.Refines, Runs.OpTrace, Mount, Contents;
    SaveRoundTripIff(ls);
    LoadedAfterSaved(ls);
    FittingSize(ls, 0);
    Runs.CrashInStep(st, a, SaveOp(name, ls), k, heap);
  }
}
