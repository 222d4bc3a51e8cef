/** Which names and sizes a write is accepted for, told apart by what the write leaves. */
module FlareFsNames {
  import opened Machine
  import opened FlareLayout
  import opened FlareFsModel
  import opened FlareFsInvariant
  import opened FlareFsCrash
  import opened FlareFsRuns
  import FlareFsInstall

  /** '/', '\\', blanks and control characters, and bytes that a signed char makes negative. */
  predicate Unfit(ch: Byte) {
    ch == '/' as int || ch == '\\' as int || ch <= ' ' as int || ch >= 128
  }

  /** A name that no file can have. */
  predicate NoName(name: seq<Byte>) {
    |name| == 0 || |name| > 47 || exists i :: 0 <= i < |name| && Unfit(name[i])
  }

  lemma ValidIff(name: Name)
    ensures ValidName(name) <==> !NoName(name)
  {
    assert forall ch: Byte :: NameByte(ch) <==> !Unfit(ch);
  }

  /** In every state a write to such a name changes nothing. */
  lemma NoNameRefused(st: State, name: Name, data: seq<Byte>, append: bool)
    requires Shaped(st.fs) && HasRegion(st.disk) && NoName(name)
    ensures OpTrace(st.fs, Put(name, data, append)) == [] && Step(st, Put(name, data, append)) == st
  {
    hide ValidName;
    ValidIff(name);
    assert Apply(st.disk, []) == st.disk;
  }

  /** Any other name is accepted when its file exists or fewer than 32 do, and when the sectors of all
      writes so far and of this one, at least one each, fit the 251 behind the metadata. The file then
      has the data, or behind its old bytes what is appended. */
  lemma WriteTakesEffectIff(st: State, a: Abs, name: Name, data: seq<Byte>, append: bool)
    requires Refines(st, a) && |data| <= MAX_MEMORY
    ensures var now := Contents(Step(st, Put(name, data, append)).fs.files);
      var final := if append && name in a.files then a.files[name] + data else data;
      now ==
        if !NoName(name) && (name in a.files || |a.files| < 32)
           && 512 * (251 - Sum(a.writes)) >= (if final == [] then 1 else |final|)
        then a.files[name := final] else a.files
  {
    hide Inv, Contents, PlanWrite, ValidName, Step, Sum;
    ValidIff(name);
    PutRefines(st, a, name, data, append);
    SectorsFit(|AbsFinal(a, name, data, append)|, 251 - Sum(a.writes));
  }

  lemma SectorsFit(size: nat, n: int)
    ensures SectorsFor(size) <= n <==> 512 * n >= (if size == 0 then 1 else size)
  {
  }

  /** On a freshly formatted disk, files of up to 251 sectors: exactly the other names take effect. */
  lemma FirstWrite(st: State, name: Name, data: seq<Byte>)
    requires Shaped(st.fs) && HasRegion(st.disk) && |data| <= 251 * 512
    ensures var d := Step(Step(st, Format), Put(name, data, false));
      Contents(d.fs.files) == if NoName(name) then map[] else map[name := data]
  {
    hide Refines, Step, Contents, Shaped;
    FormatRefines(st);
    StepShaped(st, Format);
    WriteTakesEffectIff(Step(st, Format), Abs(map[], []), name, data, false);
    assert Sum([]) == 0;
    assert map[][name := data] == map[name := data];
  }

  /** An install succeeds exactly when its files have other names and, at 512 bytes a sector and one
      sector at least, fit the 251. */
  lemma InstallTakesIff(d: DiskImage, files: seq<FsFile>)
    requires HasRegion(d) && FlareFsInstall.Installable(files)
    ensures FlareFsInstall.Install(d, files).ok <==>
      (forall i :: 0 <= i < |files| ==> !NoName(files[i].name)) && Sum(FlareFsInstall.SectorCounts(files)) <= 251
  {
    hide ValidName, NoName;
    forall i | 0 <= i < |files|
      ensures ValidName(files[i].name) <==> !NoName(files[i].name)
    {
      ValidIff(files[i].name);
    }
    FlareFsInstall.InstallSucceedsIff(d, files);
  }

  /** The file the installer writes, and a name with a slash. */
  lemma TwoNames(st: State, data: seq<Byte>)
    requires Shaped(st.fs) && HasRegion(st.disk) && |data| <= 251 * 512
    ensures var d := Step(Step(st, Format), Put(Ascii("keyboard.cfg"), data, false));
      Contents(d.fs.files) == map[Ascii("keyboard.cfg") := data]
    ensures var d := Step(Step(st, Format), Put(Ascii("a/b"), data, false)); Contents(d.fs.files) == map[]
  {
    hide Step, Contents;
    assert !NoName(Ascii("keyboard.cfg"));
    assert Unfit(Ascii("a/b")[1]);
    FirstWrite(st, Ascii("keyboard.cfg"), data);
    FirstWrite(st, Ascii("a/b"), data);
  }
}
