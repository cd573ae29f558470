/** Keeping a Microsoft loader on the EFI system partition (BootEncryption.cpp, lines 2971-3047, 3348-3530,
    4419-4602, 5545-5580; DcsRe.c, lines 129-255; DcsBoot.c, lines 62-93). */
module Loader {
  import opened Bytes

  /** Files as the code names them; `Vc` and `Root` are those in \EFI\VeraCrypt and in the root. A configured
      path is one of these values, so two spellings of one path are the same. */
  datatype Path =
    | Bootmgfw | BootmgfwMs | StdLoader | StdBackup | OldStdBackup | SystemBackup
    | Vc(name: string) | Root(name: string) | Other(name: string)

  type File = seq<byte>
  type Files = map<Path, File>

  /** "bootmgfw.pdb", and "VeraCrypt" in UTF-16. */
  const MS_BOOT: seq<byte> := [0x62, 0x6F, 0x6F, 0x74, 0x6D, 0x67, 0x66, 0x77, 0x2E, 0x70, 0x64, 0x62]
  const VC_BOOT: seq<byte> := [0x56, 0, 0x65, 0, 0x72, 0, 0x61, 0, 0x43, 0, 0x72, 0, 0x79, 0, 0x70, 0, 0x74, 0]
  const DCS_MAX: nat := 32768
  const DCS_BOOT: Path := Vc("DcsBoot.efi")

  /** What is ours in \EFI\VeraCrypt. */
  const OWN_FILES: seq<string> :=
    ["DcsBoot.efi", "DcsInt.dcs", "DcsCfg.dcs", "LegacySpeaker.dcs", "DcsBml.dcs", "DcsBoot", "DcsInfo.dcs",
     "PlatformInfo", "DcsProp"]

  /** DcsBootBins of the rescue disk. */
  const RESCUE_BINS: seq<string> := ["DcsBoot.efi", "DcsInt.dcs", "DcsBml.dcs", "DcsCfg.dcs", "LegacySpeaker.dcs"]

  predicate At(b: File, i: int, pattern: seq<byte>) {
    0 <= i <= |b| - |pattern| && b[i..i + |pattern|] == pattern
  }

  predicate Has(b: File, pattern: seq<byte>) {
    exists i :: 0 <= i <= |b| - |pattern| && At(b, i, pattern)
  }

  /** BufferHasPattern and MemoryHasPattern. */
  method BufferHasPattern(buffer: File, pattern: seq<byte>) returns (found: bool)
    ensures found == Has(buffer, pattern)
  {
    found := false;
    if |pattern| <= |buffer| {
      for i := 0 to |buffer| - |pattern| + 1
        invariant !found && forall k :: 0 <= k < i ==> !At(buffer, k, pattern)
      {
        if buffer[i..i + |pattern|] == pattern {
          assert At(buffer, i, pattern);
          return true;
        }
      }
    }
  }

  /** What the code takes for a Microsoft loader. */
  predicate IsMs(b: File) {
    |b| > DCS_MAX && Has(b, MS_BOOT)
  }

  /** A file of more than 32 KiB that has "bootmgfw.pdb" at some place. */
  lemma MicrosoftExactly(b: File)
    ensures var pattern := [98, 111, 111, 116, 109, 103, 102, 119, 46, 112, 100, 98];
      IsMs(b) <==> |b| > 32768 && exists k :: At(b, k, pattern)
  {
    assert MS_BOOT == [98, 111, 111, 116, 109, 103, 102, 119, 46, 112, 100, 98];
  }

  /** A small file with the Microsoft string, which the checks that do not look at the size take for a Microsoft
      loader. DcsBoot.efi is one: it holds the string it searches for (DcsBoot.c, line 32). */
  predicate Impostor(b: File) {
    |b| <= DCS_MAX && Has(b, MS_BOOT)
  }

  predicate MsIn(f: Files, p: Path) {
    p in f && IsMs(f[p])
  }

  /** The invariant: the kept loader, if there is one, is a Microsoft loader, and if there is none the
      Microsoft loader is in its own place. */
  predicate Preserved(f: Files) {
    if BootmgfwMs in f then IsMs(f[BootmgfwMs]) else MsIn(f, Bootmgfw)
  }

  predicate OursIn(f: Files, p: Path) {
    p in f && |f[p]| <= DCS_MAX && Has(f[p], VC_BOOT)
  }

  /** The loader kept in both places. */
  function KeptFrom(f: Files, loader: File): Files {
    f[BootmgfwMs := loader][SystemBackup := loader]
  }

  predicate AllPreserved(h: seq<Files>) {
    forall k :: 0 <= k < |h| ==> Preserved(h[k])
  }

  /** MoveFileEx, or the deletion of the source when the target already has its contents. */
  function Renamed(f: Files, src: Path, dst: Path): Files
    requires src in f
  {
    if dst in f && f[dst] == f[src] then f - {src} else (f - {src})[dst := f[src]]
  }

  predicate RenameWorks(f: Files, stuck: set<Path>, src: Path, dst: Path, force: bool) {
    src in f && src !in stuck && (force || dst !in f || f[dst] == f[src])
  }

  /** The first n binaries are those of the rescue disk. */
  predicate Copied(rescue: Files, f: Files, n: nat)
    requires n <= |RESCUE_BINS|
  {
    forall i :: 0 <= i < n ==>
      var p := Vc(RESCUE_BINS[i]); p in rescue && p in f && f[p] == rescue[p]
  }

  predicate HasBins(rescue: Files) {
    forall i :: 0 <= i < |RESCUE_BINS| ==> Vc(RESCUE_BINS[i]) in rescue
  }

  /** The same files outside \EFI\VeraCrypt and the root. */
  ghost predicate SameLoaders(f: Files, g: Files) {
    forall p: Path :: !p.Vc? && !p.Root? ==> (p in f <==> p in g) && (p in f ==> f[p] == g[p])
  }

  lemma SameBack(f: Files, g: Files)
    requires SameLoaders(f, g)
    ensures SameLoaders(g, f) && (Preserved(f) <==> Preserved(g))
  {
  }

  /** The standard loader after an installation: a Microsoft one is put away and replaced by ours, a foreign one
      stays. */
  predicate StandardKept(f: Files, g: Files, stuck: set<Path>, ours: File) {
    && (MsIn(f, StdLoader) && StdLoader !in stuck ==>
      StdBackup in g && g[StdBackup] == f[StdLoader] && StdLoader in g && g[StdLoader] == ours)
    && (!MsIn(f, StdLoader) && !OursIn(f, StdLoader) ==>
      (StdLoader in g <==> StdLoader in f) && (StdLoader in g ==> g[StdLoader] == f[StdLoader])
      && (OldStdBackup !in f ==>
        (StdBackup in g <==> StdBackup in f) && (StdBackup in g ==> g[StdBackup] == f[StdBackup])))
  }

  predicate Holds(f: Files, p: Path, data: File) {
    p in f && f[p] == data
  }

  /** The five modules lie in \EFI\VeraCrypt. */
  predicate ModulesIn(f: Files, images: Images) {
    && Holds(f, Vc("DcsBoot.efi"), images.dcsBoot) && Holds(f, Vc("DcsInt.dcs"), images.dcsInt)
    && Holds(f, Vc("DcsCfg.dcs"), images.dcsCfg) && Holds(f, Vc("LegacySpeaker.dcs"), images.legacySpeaker)
    && Holds(f, Vc("DcsInfo.dcs"), images.dcsInfo)
  }

  predicate Gone(f: Files, stuck: set<Path>, p: Path) {
    p !in f || p in stuck
  }

  /** Nothing of ours is left in \EFI\VeraCrypt or in the root, but what cannot be deleted. */
  predicate OursGone(f: Files, stuck: set<Path>) {
    && Gone(f, stuck, Vc("DcsBoot.efi")) && Gone(f, stuck, Vc("DcsInt.dcs")) && Gone(f, stuck, Vc("DcsCfg.dcs"))
    && Gone(f, stuck, Vc("LegacySpeaker.dcs")) && Gone(f, stuck, Vc("DcsBml.dcs")) && Gone(f, stuck, Vc("DcsBoot"))
    && Gone(f, stuck, Vc("DcsInfo.dcs")) && Gone(f, stuck, Vc("PlatformInfo")) && Gone(f, stuck, Vc("DcsProp"))
    && RootGone(f, stuck)
  }

  lemma NothingOfOurs(f: Files, g: Files, stuck: set<Path>)
    requires RootGone(f, stuck) && forall p :: p in g ==> p in f
    requires forall i :: 0 <= i < |OWN_FILES| ==> Gone(g, stuck, Vc(OWN_FILES[i]))
    ensures OursGone(g, stuck)
  {
    assert Gone(g, stuck, Vc(OWN_FILES[0])) && Gone(g, stuck, Vc(OWN_FILES[1])) && Gone(g, stuck, Vc(OWN_FILES[2]));
    assert Gone(g, stuck, Vc(OWN_FILES[3])) && Gone(g, stuck, Vc(OWN_FILES[4])) && Gone(g, stuck, Vc(OWN_FILES[5]));
    assert Gone(g, stuck, Vc(OWN_FILES[6])) && Gone(g, stuck, Vc(OWN_FILES[7])) && Gone(g, stuck, Vc(OWN_FILES[8]));
  }

  predicate RootGone(f: Files, stuck: set<Path>) {
    && Gone(f, stuck, Root("DcsBoot.efi")) && Gone(f, stuck, Root("DcsInt.efi")) && Gone(f, stuck, Root("DcsCfg.efi"))
    && Gone(f, stuck, Root("LegacySpeaker.efi")) && Gone(f, stuck, Root("DcsBoot")) && Gone(f, stuck, Root("DcsProp"))
  }

  /** A configuration file stays where it is, or comes from where earlier versions kept it. */
  predicate ConfigMoved(f: Files, g: Files, stuck: set<Path>, name: string) {
    if Vc(name) in f then Holds(g, Vc(name), f[Vc(name)])
    else if Root(name) in f && Root(name) !in stuck then Holds(g, Vc(name), f[Root(name)])
    else Vc(name) !in g
  }

  /** Both configuration files moved, and what earlier versions left deleted. */
  predicate Tidied(f: Files, g: Files, stuck: set<Path>) {
    ConfigMoved(f, g, stuck, "DcsProp") && ConfigMoved(f, g, stuck, "DcsBoot") && RootGone(g, stuck)
    && Gone(g, stuck, Vc("DcsBml.dcs"))
  }

  /** After setup of Windows: ours over a Microsoft loader that has been put away, or where there was none. */
  predicate TakenOver(f: Files, g: Files, stuck: set<Path>)
    requires DCS_BOOT in f
  {
    && (MsIn(f, Bootmgfw) || Bootmgfw !in f ==> Holds(g, Bootmgfw, f[DCS_BOOT]))
    && (MsIn(f, StdLoader) && StdLoader !in stuck && !IsMs(f[DCS_BOOT]) ==>
          Holds(g, StdBackup, f[StdLoader]) && Holds(g, StdLoader, f[DCS_BOOT]))
  }

  /** It can be told beforehand which loader is kept. */
  predicate Settled(f: Files) {
    BootmgfwMs in f || MsIn(f, Bootmgfw)
  }

  /** The modules are installed, unless ours only takes over. */
  predicate Installs(f: Files, preserveUserConfig: bool, postOOBE: bool) {
    !preserveUserConfig || !postOOBE || DCS_BOOT !in f
  }

  /** The standard loader after a rescue: a Microsoft one is copied away, and ours from the rescue disk takes its place,
      that of one of ours, or the one that has been put away; any other stays. */
  predicate StandardRescued(f: Files, g: Files, rescue: Files, unreadable: set<Path>) {
    if StdLoader in f && StdLoader !in unreadable && MsIn(f, StdLoader) then
      Holds(g, StdBackup, f[StdLoader]) && DCS_BOOT in rescue && Holds(g, StdLoader, rescue[DCS_BOOT])
    else if (StdLoader in f && StdLoader !in unreadable && OursIn(f, StdLoader))
            || (StdLoader !in f && StdBackup in f) then
      SameOwn(f, g, StdBackup) && DCS_BOOT in rescue && Holds(g, StdLoader, rescue[DCS_BOOT])
    else
      SameOwn(f, g, StdBackup) && SameOwn(f, g, StdLoader)
  }

  /** An installation undone: the kept loader is back in its place, and nothing of ours is left. */
  predicate Undone(f: Files, g: Files, stuck: set<Path>)
    requires BootmgfwMs in f
  {
    BootmgfwMs !in g && Holds(g, Bootmgfw, f[BootmgfwMs]) && OursGone(g, stuck)
  }

  predicate CopiedOne(rescue: Files, f: Files, p: Path) {
    p in rescue && Holds(f, p, rescue[p])
  }

  /** The five binaries of the rescue disk. */
  predicate RescueBinsIn(rescue: Files, f: Files) {
    && CopiedOne(rescue, f, Vc("DcsBoot.efi")) && CopiedOne(rescue, f, Vc("DcsInt.dcs"))
    && CopiedOne(rescue, f, Vc("DcsBml.dcs")) && CopiedOne(rescue, f, Vc("DcsCfg.dcs"))
    && CopiedOne(rescue, f, Vc("LegacySpeaker.dcs"))
  }

  lemma RescueKeeps(f: Files, g: Files, h: Files, k: Files, rescue: Files, unreadable: set<Path>)
    requires SameLoaders(f, g) && RescueBinsIn(rescue, g) && StandardRescued(g, h, rescue, unreadable)
    requires forall p :: p != StdLoader && p != StdBackup ==> (p in h <==> p in g) && (p in h ==> h[p] == g[p])
    requires forall p: Path :: p != Bootmgfw && p != BootmgfwMs ==> SameOwn(h, k, p)
    ensures RescueBinsIn(rescue, k) && StandardRescued(f, k, rescue, unreadable)
  {
    hide IsMs, Has;
    assert SameOwn(h, k, Vc("DcsBoot.efi")) && SameOwn(h, k, Vc("DcsInt.dcs")) && SameOwn(h, k, Vc("DcsBml.dcs"));
    assert SameOwn(h, k, Vc("DcsCfg.dcs")) && SameOwn(h, k, Vc("LegacySpeaker.dcs"));
    assert SameOwn(h, k, StdLoader) && SameOwn(h, k, StdBackup);
    assert SameOwn(f, g, StdLoader) && SameOwn(f, g, StdBackup);
  }

  lemma AllCopied(rescue: Files, f: Files)
    requires Copied(rescue, f, |RESCUE_BINS|)
    ensures RescueBinsIn(rescue, f)
  {
    assert Vc(RESCUE_BINS[0]) in f && Vc(RESCUE_BINS[1]) in f && Vc(RESCUE_BINS[2]) in f;
    assert Vc(RESCUE_BINS[3]) in f && Vc(RESCUE_BINS[4]) in f;
  }

  /** The same in \EFI\VeraCrypt. */
  predicate SameOwn(f: Files, g: Files, p: Path) {
    (p in f <==> p in g) && (p in f ==> f[p] == g[p])
  }

  lemma KeptComesBack(f: Files, g: Files, stuck: set<Path>, configured: Option<Path>)
    requires BootmgfwMs in f && BootmgfwMs !in stuck
    requires SameLoaders(g, LoadersBack(StandardBack(f, stuck), stuck, configured))
    ensures BootmgfwMs !in g && Holds(g, Bootmgfw, f[BootmgfwMs])
  {
    hide Taken;
    assert BootmgfwMs in StandardBack(f, stuck) && StandardBack(f, stuck)[BootmgfwMs] == f[BootmgfwMs];
  }

  /** Overwriting bootmgfw.efi is safe: the Microsoft loader has been kept, or is about to be and can be moved. */
  predicate Armed(f: Files, stuck: set<Path>, preserveUserConfig: bool) {
    BootmgfwMs in f || (preserveUserConfig && Bootmgfw !in stuck)
  }

  /** The file that a restoration without a kept loader moves into place. */
  predicate Taken(f: Files, stuck: set<Path>, configured: Option<Path>) {
    && configured.Some? && configured.value != BootmgfwMs && configured.value != Bootmgfw
    && configured.value in f && configured.value !in stuck && Has(f[configured.value], MS_BOOT)
  }

  /** Nothing to be read of the configured file, or it can be read. */
  predicate Readable(f: Files, unreadable: set<Path>, configured: Option<Path>) {
    configured.Some? && configured.value != BootmgfwMs && configured.value != Bootmgfw ==>
      configured.value in f && configured.value !in unreadable
  }

  predicate Fooled(f: Files, stuck: set<Path>, configured: Option<Path>) {
    Taken(f, stuck, configured) && Impostor(f[configured.value])
  }

  function StandardBack(f: Files, stuck: set<Path>): Files {
    if RenameWorks(f, stuck, StdBackup, StdLoader, true) then Renamed(f, StdBackup, StdLoader) else f
  }

  /** All that is ours but the configuration and DcsBml.dcs stays. */
  ghost predicate OthersKept(f: Files, g: Files) {
    forall p: Path :: p.Vc? && p != Vc("DcsProp") && p != Vc("DcsBoot") && p != Vc("DcsBml.dcs") ==> SameOwn(f, g, p)
  }

  lemma TwoMoved(f: Files, g: Files, stuck: set<Path>)
    requires var m := if RenameWorks(f, stuck, Root("DcsProp"), Vc("DcsProp"), false)
                      then Renamed(f, Root("DcsProp"), Vc("DcsProp")) else f;
      g == if RenameWorks(m, stuck, Root("DcsBoot"), Vc("DcsBoot"), false)
           then Renamed(m, Root("DcsBoot"), Vc("DcsBoot")) else m
    ensures ConfigMoved(f, g, stuck, "DcsProp") && ConfigMoved(f, g, stuck, "DcsBoot")
    ensures forall p: Path :: p.Vc? && p != Vc("DcsProp") && p != Vc("DcsBoot") ==> SameOwn(f, g, p)
  {
  }

  lemma OldGone(f: Files, g: Files, h: Files, k: Files, stuck: set<Path>)
    requires ConfigMoved(f, g, stuck, "DcsProp") && ConfigMoved(f, g, stuck, "DcsBoot")
    requires forall p: Path :: p.Vc? && p != Vc("DcsProp") && p != Vc("DcsBoot") ==> SameOwn(f, g, p)
    requires forall p: Path :: p.Vc? ==> SameOwn(h, g, p)
    requires forall p: Path :: p.Vc? && p != Vc("DcsBml.dcs") ==> SameOwn(h, k, p)
    requires RootGone(k, stuck) && Gone(k, stuck, Vc("DcsBml.dcs"))
    ensures Tidied(f, k, stuck) && OthersKept(f, k)
  {
    forall p: Path | p.Vc? && p != Vc("DcsBml.dcs") ensures SameOwn(g, k, p) {
      assert SameOwn(h, g, p) && SameOwn(h, k, p);
    }
    assert SameOwn(g, k, Vc("DcsProp")) && SameOwn(g, k, Vc("DcsBoot"));
    forall p: Path | p.Vc? && p != Vc("DcsProp") && p != Vc("DcsBoot") && p != Vc("DcsBml.dcs")
      ensures SameOwn(f, k, p)
    {
      assert SameOwn(f, g, p) && SameOwn(g, k, p);
    }
  }

  /** Replacing the loaders changes nothing that tidying looks at. */
  lemma OwnBefore(f: Files, g: Files, h: Files, stuck: set<Path>)
    requires forall p: Path :: p.Vc? || p.Root? ==> SameOwn(g, f, p)
    requires Tidied(g, h, stuck) && OthersKept(g, h)
    ensures Tidied(f, h, stuck) && OthersKept(f, h)
  {
    assert SameOwn(g, f, Vc("DcsProp")) && SameOwn(g, f, Vc("DcsBoot"));
    assert SameOwn(g, f, Root("DcsProp")) && SameOwn(g, f, Root("DcsBoot"));
    forall p: Path | p.Vc? && p != Vc("DcsProp") && p != Vc("DcsBoot") && p != Vc("DcsBml.dcs")
      ensures SameOwn(f, h, p)
    {
      assert SameOwn(g, f, p) && SameOwn(g, h, p);
    }
  }

  function Saved(f: Files, images: Images): Files {
    f[DCS_BOOT := images.dcsBoot][Vc("DcsInt.dcs") := images.dcsInt][Vc("DcsCfg.dcs") := images.dcsCfg]
     [Vc("LegacySpeaker.dcs") := images.legacySpeaker][Vc("DcsInfo.dcs") := images.dcsInfo]
  }

  /** Neither configuration file is a module. */
  predicate ConfigSame(f: Files, g: Files) {
    && SameOwn(f, g, Vc("DcsProp")) && SameOwn(f, g, Vc("DcsBoot"))
    && SameOwn(f, g, Root("DcsProp")) && SameOwn(f, g, Root("DcsBoot"))
  }

  lemma ModulesSaved(f: Files, m: Files, images: Images)
    requires m == Saved(f, images)
    ensures ModulesIn(m, images) && ConfigSame(f, m)
  {
  }

  lemma SavedThenDeleted(f: Files, m: Files, g: Files, images: Images)
    requires ModulesIn(m, images) && ConfigSame(f, m)
    requires g == m || forall p :: (p in m && p !in [Vc("PlatformInfo")] ==> Holds(g, p, m[p])) && (p in g ==> p in m)
    ensures ModulesIn(g, images) && ConfigSame(f, g)
  {
  }

  lemma OneGone(f: Files, stuck: set<Path>, p: Path)
    requires forall k :: 0 <= k < |[p]| && [p][k] !in stuck ==> [p][k] !in f
    ensures Gone(f, stuck, p)
  {
    assert [p][0] == p;
  }

  lemma TidiedFrom(f: Files, g: Files, h: Files, stuck: set<Path>, images: Images)
    requires ConfigSame(f, g) && ModulesIn(g, images) && Tidied(g, h, stuck) && OthersKept(g, h)
    ensures Tidied(f, h, stuck) && ModulesIn(h, images)
    ensures Gone(g, stuck, Vc("PlatformInfo")) ==> Gone(h, stuck, Vc("PlatformInfo"))
  {
    assert SameOwn(g, h, Vc("DcsBoot.efi")) && SameOwn(g, h, Vc("DcsInt.dcs")) && SameOwn(g, h, Vc("DcsCfg.dcs"));
    assert SameOwn(g, h, Vc("LegacySpeaker.dcs")) && SameOwn(g, h, Vc("DcsInfo.dcs"));
    assert SameOwn(g, h, Vc("PlatformInfo"));
  }

  lemma KeptThenTidied(f: Files, g: Files, h: Files, stuck: set<Path>)
    requires g == f || (Bootmgfw in f && g == Renamed(f, Bootmgfw, BootmgfwMs))
    requires Tidied(g, h, stuck)
    ensures Tidied(f, h, stuck)
  {
    assert ConfigSame(f, g);
  }

  lemma StandardKeptSame(f: Files, g: Files, h: Files, stuck: set<Path>, ours: File)
    requires SameLoaders(f, g) && StandardKept(g, h, stuck, ours)
    ensures StandardKept(f, h, stuck, ours)
  {
    hide Has;
  }

  function LoadersBack(f: Files, stuck: set<Path>, configured: Option<Path>): Files {
    if RenameWorks(f, stuck, BootmgfwMs, Bootmgfw, true) then Renamed(f, BootmgfwMs, Bootmgfw)
    else if Taken(f, stuck, configured) then Renamed(f, configured.value, Bootmgfw)
    else f
  }

  /** A restoration breaks the invariant exactly when nothing was kept and an impostor is moved into place. */
  lemma BackPreserved(f0: Files, stuck: set<Path>, configured: Option<Path>)
    requires Preserved(f0)
    ensures var f := StandardBack(f0, stuck);
      Preserved(LoadersBack(f, stuck, configured)) <==> BootmgfwMs in f || !Fooled(f, stuck, configured)
  {
    hide Has;
  }

  /** The modules the installer carries. */
  datatype Images = Images(dcsBoot: File, dcsInt: File, dcsCfg: File, legacySpeaker: File, dcsInfo: File)

  /** The EFI system partition. `faults` says which of the operations that throw do so; a file in `stuck` silently
      cannot be moved or deleted; one in `unreadable` cannot be read. `history` holds the files after every
      operation. */
  class EfiBoot {
    var files: Files
    var faults: seq<bool>
    var stuck: set<Path>
    var unreadable: set<Path>
    ghost var history: seq<Files>

    /** Every state so far kept the invariant. */
    ghost predicate Kept()
      reads this
    {
      Preserved(files) && AllPreserved(history)
    }

    ghost predicate Faultless()
      reads this
    {
      faults == [] && stuck == {} && unreadable == {}
    }

    method NextFault() returns (failed: bool)
      modifies `faults
      ensures old(faults) == [] ==> faults == [] && !failed
    {
      failed := |faults| > 0 && faults[0];
      faults := if |faults| > 0 then faults[1..] else [];
    }

    method FileExists(p: Path) returns (yes: bool)
      ensures yes <==> p in files
    {
      yes := p in files;
    }

    /** GetFileSize and ReadFile. */
    method ReadFile(p: Path) returns (ok: bool, data: File)
      ensures ok <==> p in files && p !in unreadable
      ensures ok ==> data == files[p]
    {
      ok := p in files && p !in unreadable;
      data := if ok then files[p] else [];
    }

    method SaveFile(p: Path, data: File) returns (ok: bool)
      modifies `files, `faults, `history
      ensures files == if ok then old(files)[p := data] else old(files)
      ensures history == old(history) + [files]
      ensures old(faults) == [] ==> faults == [] && ok
    {
      var failed := NextFault();
      ok := !failed;
      if ok {
        files := files[p := data];
      }
      history := history + [files];
    }

    method CopyFile(src: Path, dst: Path) returns (ok: bool)
      modifies `files, `faults, `history
      ensures ok ==> src in old(files) && files == old(files)[dst := old(files)[src]]
      ensures !ok ==> files == old(files)
      ensures history == old(history) + [files]
      ensures old(faults) == [] ==> faults == [] && (ok <==> src in old(files))
    {
      var failed := NextFault();
      ok := !failed && src in files;
      if ok {
        files := files[dst := files[src]];
      }
      history := history + [files];
    }

    method RenameFile(src: Path, dst: Path, force: bool) returns (ok: bool)
      modifies `files, `history
      ensures ok <==> RenameWorks(old(files), stuck, src, dst, force)
      ensures files == if ok then Renamed(old(files), src, dst) else old(files)
      ensures history == old(history) + [files]
    {
      ok := src in files && src !in stuck && (force || dst !in files || files[dst] == files[src]);
      if ok {
        var data := files[src];
        if dst in files && files[dst] == data {
          files := files - {src};
        } else {
          files := (files - {src})[dst := data];
        }
      }
      history := history + [files];
    }

    method DelFile(p: Path)
      modifies `files, `history
      ensures files == if p in stuck then old(files) else old(files) - {p}
      ensures history == old(history) + [files]
    {
      if p !in stuck {
        files := files - {p};
      }
      history := history + [files];
    }

    method GetFileSize(p: Path) returns (ok: bool, size: nat)
      ensures ok <==> p in files
      ensures ok ==> size == |files[p]|
    {
      ok := p in files;
      size := if ok then |files[p]| else 0;
    }

    /** The check made wherever the size is looked at first (lines 3369-3381 and their like). */
    method LooksMs(p: Path) returns (ok: bool, found: bool)
      ensures ok ==> (found <==> MsIn(files, p))
      ensures p in files && p !in unreadable ==> ok
    {
      found := false;
      var size;
      ok, size := GetFileSize(p);
      if !ok || size <= DCS_MAX {
        return;
      }
      var data;
      ok, data := ReadFile(p);
      if ok {
        found := BufferHasPattern(data, MS_BOOT);
      }
    }

    /** BackupSystemLoader; `answer` is the user's when our loader is already installed. */
    method BackupSystemLoader(answer: bool) returns (ok: bool)
      modifies `files, `faults, `history
      ensures old(history) <= history
      ensures old(Kept()) ==> Kept()
      ensures old(Preserved(files)) && ok ==> MsIn(files, BootmgfwMs)
      ensures BootmgfwMs in old(files) ==> BootmgfwMs in files
      ensures old(MsIn(files, Bootmgfw) && faults == [] && Bootmgfw !in unreadable) ==> ok
      ensures ok && MsIn(old(files), Bootmgfw) ==> files == KeptFrom(old(files), old(files)[Bootmgfw])
      ensures ok && !MsIn(old(files), Bootmgfw) ==>
        answer && OursIn(old(files), Bootmgfw)
        && files == if BootmgfwMs in old(files) && Has(old(files)[BootmgfwMs], MS_BOOT)
                    then KeptFrom(old(files)[Bootmgfw := old(files)[BootmgfwMs]], old(files)[BootmgfwMs])
                    else old(files)
        ensures old(faults) == [] ==> faults == []
    {
      var modified := true;
      var read, data := ReadFile(Bootmgfw);
      if !read {
        return false;
      }
      if |data| > DCS_MAX {
        var found := BufferHasPattern(data, MS_BOOT);
        if found {
          modified := false;
        }
      } else {
        var ours := BufferHasPattern(data, VC_BOOT);
        if ours {
          if !answer {
            return false;
          }
          var present := FileExists(BootmgfwMs);
          if present {
            read, data := ReadFile(BootmgfwMs);
            if !read {
              return false;
            }
            var found := BufferHasPattern(data, MS_BOOT);
            if found {
              ok := CopyFile(BootmgfwMs, Bootmgfw);
              if !ok {
                return;
              }
              modified := false;
            }
          }
          if modified {
            return true;
          }
        }
      }
      if modified {
        return false;
      }
      ok := CopyFile(Bootmgfw, BootmgfwMs);
      if !ok {
        return;
      }
      ok := CopyFile(Bootmgfw, SystemBackup);
    }

    /** Lines 3357-3437: put the Microsoft loader away before ours takes its place. */
    method KeepLoader(postOOBE: bool, configured: Option<Path>) returns (ok: bool, modified: bool, missing: bool)
      modifies `files, `history
      ensures old(history) <= history
      ensures old(Kept()) && (BootmgfwMs in old(files) || Bootmgfw !in stuck) ==> Kept()
      ensures ok ==> (missing <==> Bootmgfw !in old(files)) && (modified <==> !MsIn(old(files), Bootmgfw))
      ensures ok && (BootmgfwMs in old(files) || !modified) ==>
        files == if !modified && Bootmgfw !in stuck then Renamed(old(files), Bootmgfw, BootmgfwMs) else old(files)
      ensures BootmgfwMs in old(files) ==> BootmgfwMs in files && (!ok ==> files == old(files))
      ensures ok && !postOOBE && stuck == {} ==> BootmgfwMs in files
      ensures ok && BootmgfwMs !in old(files) && BootmgfwMs in files ==> Has(files[BootmgfwMs], MS_BOOT)
      ensures ok && BootmgfwMs !in old(files) && modified ==>
        files == old(files)
        || (configured.Some? && configured.value in old(files)
            && files == Renamed(old(files), configured.value, BootmgfwMs))
      ensures Bootmgfw in old(files) && Bootmgfw !in unreadable && BootmgfwMs in old(files) ==> ok
      ensures MsIn(old(files), Bootmgfw) && Bootmgfw !in unreadable ==> ok
    {
      modified, missing, ok := true, false, true;
      var found := false;
      var here := FileExists(Bootmgfw);
      if here {
        ok, found := LooksMs(Bootmgfw);
        if !ok {
          return;
        }
      } else {
        missing := true;
      }
      modified := !found;
      var kept := FileExists(BootmgfwMs);
      if kept || !modified {
        if !modified {
          // the result is not looked at
          var _ := RenameFile(Bootmgfw, BootmgfwMs, true);
        }
      } else {
        var rescued;
        ok, rescued := KeepConfigured(configured);
        if ok && !rescued && !postOOBE {
          ok := false;
        }
      }
    }

    /** Lines 3406-3436: no loader at all, so the configured one is taken, whatever its size. */
    method KeepConfigured(configured: Option<Path>) returns (ok: bool, found: bool)
      requires BootmgfwMs !in files
      modifies `files, `history
      ensures history == old(history) || history == old(history) + [files]
      ensures ok && found ==>
        configured.Some? && configured.value in old(files) && configured.value != Bootmgfw
        && Has(old(files)[configured.value], MS_BOOT)
      ensures files == if ok && found && configured.value !in stuck
                       then Renamed(old(files), configured.value, BootmgfwMs) else old(files)
    {
      ok, found := true, false;
      if configured.Some? && configured.value != Bootmgfw && configured.value in files {
        var data;
        ok, data := ReadFile(configured.value);
        if !ok {
          return;
        }
        found := BufferHasPattern(data, MS_BOOT);
        if found {
          var _ := RenameFile(configured.value, BootmgfwMs, true);
        }
      }
    }

    /** Lines 3439-3466: after setup of Windows, ours is put over a Microsoft loader that has been put away. */
    method TakeOver(modified: bool, missing: bool) returns (ok: bool)
      requires DCS_BOOT in files
      modifies `files, `faults, `history
      ensures old(history) <= history
      ensures old(Kept()) && BootmgfwMs in old(files) ==> Kept()
      ensures BootmgfwMs in files <==> BootmgfwMs in old(files)
      ensures BootmgfwMs in files ==> files[BootmgfwMs] == old(files)[BootmgfwMs]
      ensures ok && (!modified || missing) ==> Bootmgfw in files && files[Bootmgfw] == old(files)[DCS_BOOT]
      ensures ok && MsIn(old(files), StdLoader) && StdLoader !in stuck && !IsMs(old(files)[DCS_BOOT]) ==>
        StdBackup in files && files[StdBackup] == old(files)[StdLoader]
        && StdLoader in files && files[StdLoader] == old(files)[DCS_BOOT]
    {
      ok := true;
      if !modified || missing {
        ok := CopyFile(DCS_BOOT, Bootmgfw);
        if !ok {
          return;
        }
      }
      var std := FileExists(StdLoader);
      if std {
        var found;
        ok, found := LooksMs(StdLoader);
        if ok && found {
          var _ := RenameFile(StdLoader, StdBackup, true);
          ok := CopyFile(DCS_BOOT, StdLoader);
        }
      }
    }

    /** A file of our own is saved. */
    method SaveOurs(p: Path, data: File) returns (ok: bool)
      requires p.Vc?
      modifies `files, `faults, `history
      ensures old(history) <= history
      ensures old(Kept()) ==> Kept()
      ensures files == if ok then old(files)[p := data] else old(files)
      ensures old(faults) == [] ==> faults == [] && ok
    {
      ok := SaveFile(p, data);
    }

    method SaveModules(images: Images) returns (ok: bool)
      modifies `files, `faults, `history
      ensures old(history) <= history
      ensures old(Kept()) ==> Kept()
      ensures SameLoaders(old(files), files)
      ensures ok ==> files == Saved(old(files), images)
      ensures old(faults) == [] ==> faults == [] && ok
    {
      hide Has, Preserved, AllPreserved, EfiBoot.Kept;
      ok := SaveOurs(DCS_BOOT, images.dcsBoot);
      if !ok { return; }
      ok := SaveOurs(Vc("DcsInt.dcs"), images.dcsInt);
      if !ok { return; }
      ok := SaveOurs(Vc("DcsCfg.dcs"), images.dcsCfg);
      if !ok { return; }
      ok := SaveOurs(Vc("LegacySpeaker.dcs"), images.legacySpeaker);
      if !ok { return; }
      ok := SaveOurs(Vc("DcsInfo.dcs"), images.dcsInfo);
    }

    /** Lines 3482-3502: the standard loader is replaced when it is Microsoft's or ours. */
    method ReplaceStandard(images: Images) returns (ok: bool)
      modifies `files, `faults, `history
      ensures old(history) <= history
      ensures old(Kept()) ==> Kept()
      ensures forall p :: p != StdLoader && p != StdBackup ==>
        (p in files <==> p in old(files)) && (p in files ==> files[p] == old(files)[p])
      ensures ok && MsIn(old(files), StdLoader) && StdLoader !in stuck ==>
        files == Renamed(old(files), StdLoader, StdBackup)[StdLoader := images.dcsBoot]
      ensures ok && !MsIn(old(files), StdLoader) ==>
        files == if OursIn(old(files), StdLoader) then old(files)[StdLoader := images.dcsBoot] else old(files)
      ensures old(faults) == [] && StdLoader !in unreadable ==> ok && faults == []
      ensures old(faults) == [] ==> faults == []
    {
      ok := true;
      var std := FileExists(StdLoader);
      if !std {
        return;
      }
      var data;
      ok, data := ReadFile(StdLoader);
      if !ok {
        return;
      }
      var ms := BufferHasPattern(data, MS_BOOT);
      var ours := BufferHasPattern(data, VC_BOOT);
      if |data| > DCS_MAX && ms {
        var _ := RenameFile(StdLoader, StdBackup, true);
        ok := SaveFile(StdLoader, images.dcsBoot);
        if !ok {
          return;
        }
      }
      if |data| <= DCS_MAX && ours {
        ok := SaveFile(StdLoader, images.dcsBoot);
      }
    }

    /** A list of deletions in the two folders of our own. */
    method DelAll(paths: seq<Path>)
      requires forall k :: 0 <= k < |paths| ==> paths[k].Vc? || paths[k].Root?
      modifies `files, `history
      ensures old(history) <= history
      ensures old(Kept()) ==> Kept()
      ensures SameLoaders(old(files), files)
      ensures forall k :: 0 <= k < |paths| && paths[k] !in stuck ==> paths[k] !in files
      ensures forall p :: p in old(files) && p !in paths ==> p in files && files[p] == old(files)[p]
      ensures forall p :: p in files ==> p in old(files)
    {
      for i := 0 to |paths|
        invariant old(Kept()) ==> Kept()
        invariant old(history) <= history
        invariant SameLoaders(old(files), files)
        invariant forall k :: 0 <= k < i && paths[k] !in stuck ==> paths[k] !in files
        invariant forall p :: p in old(files) && p !in paths ==> p in files && files[p] == old(files)[p]
        invariant forall p :: p in files ==> p in old(files)
      {
        DelFile(paths[i]);
      }
    }

    /** Lines 3469-3527. */
    method InstallModules(preserveUserConfig: bool, images: Images) returns (ok: bool)
      requires |images.dcsBoot| <= DCS_MAX
      modifies `files, `faults, `history
      ensures old(history) <= history
      ensures old(Kept()) && BootmgfwMs in old(files) ==> Kept()
      ensures BootmgfwMs in files <==> BootmgfwMs in old(files)
      ensures BootmgfwMs in files ==> files[BootmgfwMs] == old(files)[BootmgfwMs]
      ensures ok ==> Bootmgfw in files && files[Bootmgfw] == images.dcsBoot
      ensures ok ==> StandardKept(old(files), files, stuck, images.dcsBoot)
      ensures ok ==> ModulesIn(files, images) && Tidied(old(files), files, stuck)
      ensures ok && !preserveUserConfig ==> Gone(files, stuck, Vc("PlatformInfo"))
      ensures old(faults) == [] && StdLoader !in unreadable ==> ok
    {
      hide Has, IsMs, EfiBoot.Kept, StandardKept, Tidied, OthersKept, ModulesIn, ConfigSame, Saved, Gone;
      ghost var f := files;
      ok := SaveModules(images);
      if !ok { return; }
      ghost var m := files;
      ModulesSaved(f, m, images);
      if !preserveUserConfig {
        DelAll([Vc("PlatformInfo")]);
        OneGone(files, stuck, Vc("PlatformInfo"));
      }
      ghost var g := files;
      SavedThenDeleted(f, m, g, images);
      ok := InstallLoaders(images);
      if ok {
        StandardKeptSame(f, g, files, stuck, images.dcsBoot);
        TidiedFrom(f, g, files, stuck, images);
      }
    }

    /** Lines 3482-3527. */
    method InstallLoaders(images: Images) returns (ok: bool)
      requires |images.dcsBoot| <= DCS_MAX
      modifies `files, `faults, `history
      ensures old(history) <= history
      ensures old(Kept()) && BootmgfwMs in old(files) ==> Kept()
      ensures BootmgfwMs in files <==> BootmgfwMs in old(files)
      ensures BootmgfwMs in files ==> files[BootmgfwMs] == old(files)[BootmgfwMs]
      ensures ok ==> Bootmgfw in files && files[Bootmgfw] == images.dcsBoot
      ensures ok ==> StandardKept(old(files), files, stuck, images.dcsBoot)
      ensures ok ==> Tidied(old(files), files, stuck) && OthersKept(old(files), files)
      ensures old(faults) == [] && StdLoader !in unreadable ==> ok
    {
      hide Has, IsMs, Tidied, OthersKept;
      ghost var f := files;
      ok := ReplaceStandard(images);
      if !ok { return; }
      ok := SaveFile(Bootmgfw, images.dcsBoot);
      if !ok { return; }
      ghost var g := files;
      MoveOld();
      OwnBefore(f, g, files, stuck);
    }

    /** A file of our own moves to a new place of our own, unless that is taken. */
    method MoveOurs(src: Path, dst: Path)
      requires (src.Vc? || src.Root?) && (dst.Vc? || dst.Root?)
      modifies `files, `history
      ensures old(history) <= history
      ensures old(Kept()) ==> Kept()
      ensures SameLoaders(old(files), files)
      ensures files
           == if RenameWorks(old(files), stuck, src, dst, false) then Renamed(old(files), src, dst) else old(files)
    {
      hide Has;
      var _ := RenameFile(src, dst, false);
    }

    /** Lines 3508-3513: the old backup of the standard loader. */
    method MoveOldBackup()
      modifies `files, `history
      ensures old(history) <= history
      ensures old(Kept()) ==> Kept()
      ensures forall p :: p != StdBackup && p != OldStdBackup ==>
        (p in files <==> p in old(files)) && (p in files ==> files[p] == old(files)[p])
      ensures StdBackup in old(files) || OldStdBackup !in old(files) ==>
        (StdBackup in files <==> StdBackup in old(files))
        && (StdBackup in files ==> files[StdBackup] == old(files)[StdBackup])
    {
      hide Has;
      var _ := RenameFile(OldStdBackup, StdBackup, false);
    }

    /** Lines 3503-3527: configuration files move from where earlier versions kept them; the rest is deleted. */
    method MoveOld()
      modifies `files, `history
      ensures old(history) <= history
      ensures old(Kept()) ==> Kept()
      ensures forall p: Path :: !p.Vc? && !p.Root? && p != StdBackup && p != OldStdBackup ==>
        (p in files <==> p in old(files)) && (p in files ==> files[p] == old(files)[p])
      ensures StdBackup in old(files) || OldStdBackup !in old(files) ==>
        (StdBackup in files <==> StdBackup in old(files))
        && (StdBackup in files ==> files[StdBackup] == old(files)[StdBackup])
      ensures Tidied(old(files), files, stuck) && OthersKept(old(files), files)
    {
      hide Has, EfiBoot.Kept;
      ghost var f := files;
      MoveOurs(Root("DcsProp"), Vc("DcsProp"));
      MoveOurs(Root("DcsBoot"), Vc("DcsBoot"));
      ghost var g := files;
      TwoMoved(f, g, stuck);
      hide ConfigMoved;
      MoveOldBackup();
      ghost var h := files;
      DeleteOld();
      OldGone(f, g, h, files, stuck);
    }

    /** The files of beta 9, and DcsBml.dcs. */
    method DeleteOld()
      modifies `files, `history
      ensures old(history) <= history
      ensures old(Kept()) ==> Kept()
      ensures SameLoaders(old(files), files)
      ensures RootGone(files, stuck) && Gone(files, stuck, Vc("DcsBml.dcs"))
      ensures forall p: Path :: p.Vc? && p != Vc("DcsBml.dcs") ==> SameOwn(old(files), files, p)
    {
      hide Has, EfiBoot.Kept;
      var beta9 := ["DcsBoot.efi", "DcsInt.efi", "DcsCfg.efi", "LegacySpeaker.efi", "DcsBoot", "DcsProp"];
      var paths := seq(|beta9|, i requires 0 <= i < |beta9| => Root(beta9[i]));
      assert paths == [Root("DcsBoot.efi"), Root("DcsInt.efi"), Root("DcsCfg.efi"), Root("LegacySpeaker.efi"),
                       Root("DcsBoot"), Root("DcsProp")];
      DelAll(paths);
      forall i | 0 <= i < |paths| ensures Gone(files, stuck, paths[i]) {
      }
      assert Gone(files, stuck, paths[0]) && Gone(files, stuck, paths[1]) && Gone(files, stuck, paths[2]);
      assert Gone(files, stuck, paths[3]) && Gone(files, stuck, paths[4]) && Gone(files, stuck, paths[5]);
      DelAll([Vc("DcsBml.dcs")]);
      assert [Vc("DcsBml.dcs")][0] == Vc("DcsBml.dcs");
    }

    /** InstallBootLoader on a GPT disk. */
    method InstallBootLoader(preserveUserConfig: bool, postOOBE: bool, images: Images, configured: Option<Path>)
      returns (ok: bool)
      requires |images.dcsBoot| <= DCS_MAX
      modifies `files, `faults, `history
      ensures old(history) <= history
      ensures old(Kept()) && Armed(old(files), stuck, preserveUserConfig) ==> Kept()
      ensures old(Preserved(files)) && ok ==>
        (Preserved(files) <==>
         Armed(old(files), stuck, preserveUserConfig) || (preserveUserConfig && postOOBE && MsIn(old(files), DCS_BOOT)))
      ensures BootmgfwMs in old(files) ==> BootmgfwMs in files
      ensures ok && !postOOBE ==> Bootmgfw in files && files[Bootmgfw] == images.dcsBoot
      ensures ok && preserveUserConfig && MsIn(old(files), Bootmgfw) && Bootmgfw !in stuck ==>
        BootmgfwMs in files && files[BootmgfwMs] == old(files)[Bootmgfw]
      ensures BootmgfwMs in old(files) && (!preserveUserConfig || !MsIn(old(files), Bootmgfw)) ==>
        files[BootmgfwMs] == old(files)[BootmgfwMs]
      ensures ok && !preserveUserConfig ==> StandardKept(old(files), files, stuck, images.dcsBoot)
      ensures !preserveUserConfig && old(faults) == [] && StdLoader !in unreadable ==> ok
      ensures old(faults) == [] && unreadable == {} && MsIn(old(files), Bootmgfw) && !postOOBE ==> ok
      ensures ok && preserveUserConfig && !postOOBE && stuck == {} ==> BootmgfwMs in files
      ensures ok && Installs(old(files), preserveUserConfig, postOOBE) ==> ModulesIn(files, images)
      ensures ok && Installs(old(files), preserveUserConfig, postOOBE)
              && (!preserveUserConfig || Settled(old(files))) ==>
        Tidied(old(files), files, stuck)
      ensures ok && !preserveUserConfig ==> Gone(files, stuck, Vc("PlatformInfo"))
      ensures ok && !Installs(old(files), preserveUserConfig, postOOBE) && Settled(old(files)) ==>
        TakenOver(old(files), files, stuck)
    {
      hide Has, StandardKept, ModulesIn, Tidied;
      ghost var f := files;
      if preserveUserConfig {
        var modified, missing;
        ok, modified, missing := KeepLoader(postOOBE, configured);
        if !ok {
          return;
        }
        ghost var g := files;
        var ours := FileExists(DCS_BOOT);
        if postOOBE && ours {
          ok := TakeOver(modified, missing);
          return;
        }
        ok := InstallModules(preserveUserConfig, images);
        if ok && Settled(f) {
          KeptThenTidied(f, g, files, stuck);
        }
        return;
      }
      ok := InstallModules(preserveUserConfig, images);
    }

    /** The second half of RestoreSystemLoader's search (lines 4542-4570): the configured file, whatever its size. */
    method RestoreConfigured(configured: Option<Path>) returns (ok: bool)
      modifies `files, `history
      ensures history == old(history) || history == old(history) + [files]
      ensures ok ==> files == if Taken(old(files), stuck, configured)
                              then Renamed(old(files), configured.value, Bootmgfw) else old(files)
      ensures !ok ==> files == old(files)
      ensures ok <==> Readable(old(files), unreadable, configured)
    {
      ok := true;
      if configured.Some? && configured.value != BootmgfwMs && configured.value != Bootmgfw {
        var data;
        ok, data := ReadFile(configured.value);
        if !ok {
          return;
        }
        var found := BufferHasPattern(data, MS_BOOT);
        if found {
          var _ := RenameFile(configured.value, Bootmgfw, true);
        }
      }
    }

    /** Lines 4533-4571: the loaders back in their places. */
    method LoadersBackInPlace(configured: Option<Path>) returns (ok: bool)
      modifies `files, `history
      ensures old(history) <= history
      ensures var f := StandardBack(old(files), stuck);
        && (old(Kept()) && (BootmgfwMs in f || !Fooled(f, stuck, configured)) ==> Kept())
        && (ok <==> RenameWorks(f, stuck, BootmgfwMs, Bootmgfw, true) || Readable(f, unreadable, configured))
        && files == if ok then LoadersBack(f, stuck, configured) else f
    {
      hide Has;
      var _ := RenameFile(StdBackup, StdLoader, true);
      var back := RenameFile(BootmgfwMs, Bootmgfw, true);
      ok := true;
      if !back {
        ok := RestoreConfigured(configured);
      }
    }

    method RestoreSystemLoader(configured: Option<Path>) returns (ok: bool)
      modifies `files, `history
      ensures old(history) <= history
      ensures var f := StandardBack(old(files), stuck);
        && (old(Kept()) && (BootmgfwMs in f || !Fooled(f, stuck, configured)) ==> Kept())
        && (old(Preserved(files)) && ok ==> (Preserved(files) <==> BootmgfwMs in f || !Fooled(f, stuck, configured)))
        && (ok <==> RenameWorks(f, stuck, BootmgfwMs, Bootmgfw, true) || Readable(f, unreadable, configured))
        && (ok ==> SameLoaders(files, LoadersBack(f, stuck, configured)) && OursGone(files, stuck))
    {
      hide Has, SameLoaders, EfiBoot.Kept, Readable, OursGone;
      ghost var f0 := files;
      ok := LoadersBackInPlace(configured);
      if ok {
        ghost var g := files;
        Clean();
        SameBack(g, files);
        if Preserved(f0) {
          BackPreserved(f0, stuck, configured);
        }
      }
    }

    /** Lines 4572-4588. */
    method Clean()
      modifies `files, `history
      ensures OursGone(files, stuck)
      ensures old(history) <= history
      ensures old(Kept()) ==> Kept()
      ensures SameLoaders(old(files), files)
    {
      hide Has, EfiBoot.Kept, OursGone;
      var root := ["DcsBoot.efi", "DcsInt.efi", "DcsCfg.efi", "LegacySpeaker.efi", "DcsBoot", "DcsProp"];
      DelAll(seq(|root|, i requires 0 <= i < |root| => Root(root[i])));
      ghost var f := files;
      forall i | 0 <= i < |root| ensures Gone(f, stuck, Root(root[i])) {
        assert seq(|root|, i requires 0 <= i < |root| => Root(root[i]))[i] == Root(root[i]);
      }
      assert Gone(f, stuck, Root(root[0])) && Gone(f, stuck, Root(root[1])) && Gone(f, stuck, Root(root[2]));
      assert Gone(f, stuck, Root(root[3])) && Gone(f, stuck, Root(root[4])) && Gone(f, stuck, Root(root[5]));
      var own := seq(|OWN_FILES|, i requires 0 <= i < |OWN_FILES| => Vc(OWN_FILES[i]));
      DelAll(own);
      forall i | 0 <= i < |OWN_FILES| ensures Gone(files, stuck, Vc(OWN_FILES[i])) {
        assert own[i] == Vc(OWN_FILES[i]);
      }
      NothingOfOurs(f, files, stuck);
    }

    /** FileCopy from the rescue disk. */
    method CopyFrom(rescue: Files, src: Path, dst: Path) returns (ok: bool)
      modifies `files, `faults, `history
      ensures ok ==> src in rescue && files == old(files)[dst := rescue[src]]
      ensures !ok ==> files == old(files)
      ensures history == old(history) + [files]
      ensures old(faults) == [] ==> faults == [] && (ok <==> src in rescue)
    {
      var failed := NextFault();
      ok := !failed && src in rescue;
      if ok {
        files := files[dst := rescue[src]];
      }
      history := history + [files];
    }

    /** The loop over DcsBootBins. */
    method CopyBins(rescue: Files) returns (ok: bool)
      modifies `files, `faults, `history
      ensures old(history) <= history
      ensures old(Kept()) ==> Kept()
      ensures SameLoaders(old(files), files)
      ensures ok ==> Copied(rescue, files, |RESCUE_BINS|)
      ensures old(faults) == [] ==> faults == [] && (HasBins(rescue) ==> ok)
    {
      hide Has;
      ok := false;
      for i := 0 to |RESCUE_BINS|
        invariant old(faults) == [] ==> faults == []
        invariant Copied(rescue, files, i) && (i > 0 ==> ok)
        invariant old(Kept()) ==> Kept()
        invariant old(history) <= history
        invariant SameLoaders(old(files), files)
      {
        ok := CopyFrom(rescue, Vc(RESCUE_BINS[i]), Vc(RESCUE_BINS[i]));
        if !ok {
          return;
        }
      }
    }

    /** DcsRe.c, lines 200-228. A standard loader that cannot be read is left alone. */
    method RescueStandard(rescue: Files) returns (ok: bool)
      modifies `files, `faults, `history
      ensures old(history) <= history
      ensures old(Kept()) ==> Kept()
      ensures forall p :: p != StdLoader && p != StdBackup ==>
        (p in files <==> p in old(files)) && (p in files ==> files[p] == old(files)[p])
      ensures ok ==> StandardRescued(old(files), files, rescue, unreadable)
      ensures old(faults) == [] ==> faults == [] && (DCS_BOOT in rescue ==> ok)
    {
      ok := true;
      var here := FileExists(StdLoader);
      if here {
        var loaded, data := ReadFile(StdLoader);
        if loaded {
          var ms := BufferHasPattern(data, MS_BOOT);
          var ours := BufferHasPattern(data, VC_BOOT);
          if |data| > DCS_MAX && ms {
            ok := CopyFile(StdLoader, StdBackup);
            if ok {
              ok := CopyFrom(rescue, DCS_BOOT, StdLoader);
            }
          } else if |data| <= DCS_MAX && ours {
            ok := CopyFrom(rescue, DCS_BOOT, StdLoader);
          }
        }
      } else {
        var backup := FileExists(StdBackup);
        if backup {
          ok := CopyFrom(rescue, DCS_BOOT, StdLoader);
        }
      }
    }

    /** ActionRestoreDcsLoader. */
    method ActionRestoreDcsLoader(rescue: Files) returns (ok: bool)
      modifies `files, `faults, `history
      ensures old(history) <= history
      ensures old(Kept()) && (BootmgfwMs in old(files) || Bootmgfw !in unreadable) ==> Kept()
      ensures old(Preserved(files)) && ok ==>
        (Preserved(files) <==> BootmgfwMs in old(files) || Bootmgfw !in unreadable || MsIn(rescue, DCS_BOOT))
      ensures BootmgfwMs in old(files) ==> BootmgfwMs in files
      ensures ok && (Bootmgfw in old(files) || BootmgfwMs in old(files)) ==>
        DCS_BOOT in rescue && Bootmgfw in files && files[Bootmgfw] == rescue[DCS_BOOT]
      ensures ok && MsIn(old(files), Bootmgfw) && Bootmgfw !in unreadable ==>
        BootmgfwMs in files && files[BootmgfwMs] == old(files)[Bootmgfw]
      ensures ok ==> RescueBinsIn(rescue, files) && StandardRescued(old(files), files, rescue, unreadable)
      ensures old(faults) == [] && HasBins(rescue) ==> ok
    {
      hide Has, IsMs, EfiBoot.Kept, RescueBinsIn, StandardRescued;
      ghost var f := files;
      assert HasBins(rescue) ==> Vc(RESCUE_BINS[0]) in rescue;
      ok := CopyBins(rescue);
      if !ok {
        return;
      }
      AllCopied(rescue, files);
      ghost var g := files;
      hide Copied, HasBins;
      ok := RescueStandard(rescue);
      if !ok {
        return;
      }
      ghost var h := files;
      ok := RescueWindows(rescue);
      if ok {
        RescueKeeps(f, g, h, files, rescue, unreadable);
      }
    }

    /** DcsRe.c, lines 230-255: bootmgfw.efi is overwritten even when it could not be read. */
    method RescueWindows(rescue: Files) returns (ok: bool)
      modifies `files, `faults, `history
      ensures old(history) <= history
      ensures old(Kept()) && (BootmgfwMs in old(files) || Bootmgfw !in unreadable) ==> Kept()
      ensures old(Preserved(files)) && ok ==>
        (Preserved(files) <==> BootmgfwMs in old(files) || Bootmgfw !in unreadable || MsIn(rescue, DCS_BOOT))
      ensures BootmgfwMs in old(files) ==> BootmgfwMs in files
      ensures ok && (Bootmgfw in old(files) || BootmgfwMs in old(files)) ==>
        DCS_BOOT in rescue && Bootmgfw in files && files[Bootmgfw] == rescue[DCS_BOOT]
      ensures ok && MsIn(old(files), Bootmgfw) && Bootmgfw !in unreadable ==>
        BootmgfwMs in files && files[BootmgfwMs] == old(files)[Bootmgfw]
      ensures forall p: Path :: p != Bootmgfw && p != BootmgfwMs ==> SameOwn(old(files), files, p)
      ensures old(faults) == [] && DCS_BOOT in rescue ==> ok
    {
      hide Has;
      ok := true;
      var here := FileExists(Bootmgfw);
      if here {
        var loaded, data := ReadFile(Bootmgfw);
        if loaded {
          var ms := BufferHasPattern(data, MS_BOOT);
          if |data| > DCS_MAX && ms {
            ok := CopyFile(Bootmgfw, BootmgfwMs);
            if !ok {
              return;
            }
          }
        }
        ok := CopyFrom(rescue, DCS_BOOT, Bootmgfw);
      } else {
        var kept := FileExists(BootmgfwMs);
        if kept {
          ok := CopyFrom(rescue, DCS_BOOT, Bootmgfw);
        }
      }
    }

    /** ActionWindowsBoot after the confirmation; the backup that is copied as a last resort is not looked at. */
    method ActionWindowsBoot(rescue: Files) returns (r: Exec)
      modifies `files, `faults, `history
      ensures old(history) <= history
      ensures old(Kept()) && (BootmgfwMs in old(files) || Bootmgfw !in unreadable) ==> Kept()
      ensures old(Kept()) && (StdBackup in rescue ==> IsMs(rescue[StdBackup])) ==> Kept()
      ensures old(Preserved(files)) && (BootmgfwMs in old(files) || Bootmgfw !in unreadable) ==>
        files == old(files) && r.Starts? && MsIn(files, r.path)
      ensures BootmgfwMs in old(files) ==> BootmgfwMs in files
    {
      var kept := FileExists(BootmgfwMs);
      if kept {
        return Starts(BootmgfwMs);
      }
      var here := FileExists(Bootmgfw);
      if here {
        var loaded, data := ReadFile(Bootmgfw);
        if loaded {
          var ms := BufferHasPattern(data, MS_BOOT);
          if |data| > DCS_MAX && ms {
            return Starts(Bootmgfw);
          }
        }
      }
      if StdBackup in rescue {
        var ok := CopyFrom(rescue, StdBackup, BootmgfwMs);
        if ok {
          return Starts(BootmgfwMs);
        }
      }
      r := NotReady;
    }

    /** ExecMSWindowsLoader: under the invariant it always starts a Microsoft loader. */
    method ExecMSWindowsLoader() returns (r: Exec)
      ensures r.Starts? ==> r.path in files && (r.path == BootmgfwMs || IsMs(files[r.path]))
      ensures r.NotReady? <==> BootmgfwMs !in files && (!MsIn(files, Bootmgfw) || Bootmgfw in unreadable)
      ensures Preserved(files) && Bootmgfw !in unreadable ==> r.Starts? && MsIn(files, r.path)
    {
      var kept := FileExists(BootmgfwMs);
      if kept {
        return Starts(BootmgfwMs);
      }
      var here := FileExists(Bootmgfw);
      if here {
        var loaded, data := ReadFile(Bootmgfw);
        if loaded {
          var ms := BufferHasPattern(data, MS_BOOT);
          if |data| > DCS_MAX && ms {
            return Starts(Bootmgfw);
          }
        }
      }
      r := NotReady;
    }

    /** Windows replaces a loader of its own. */
    method WindowsUpdate(p: Path, data: File)
      requires p in {Bootmgfw, StdLoader} && IsMs(data)
      modifies `files, `history
      ensures old(history) <= history
      ensures old(Kept()) ==> Kept()
      ensures files == old(files)[p := data]
    {
      files := files[p := data];
      history := history + [files];
    }

    /** BootEncryption::Install: a failed installation is followed by a restoration. */
    method Install(images: Images, configured: Option<Path>) returns (ok: bool)
      requires |images.dcsBoot| <= DCS_MAX
      modifies `files, `faults, `history
      ensures old(history) <= history
      ensures old(Kept()) && BootmgfwMs in old(files) ==> Kept()
      ensures ok && BootmgfwMs in old(files) ==>
        BootmgfwMs in files && files[BootmgfwMs] == old(files)[BootmgfwMs]
        && StandardKept(old(files), files, stuck, images.dcsBoot)
      ensures ok ==> Bootmgfw in files && files[Bootmgfw] == images.dcsBoot
      ensures ok ==>
        ModulesIn(files, images) && Tidied(old(files), files, stuck) && Gone(files, stuck, Vc("PlatformInfo"))
      ensures !ok && BootmgfwMs in old(files) && BootmgfwMs !in stuck ==> Undone(old(files), files, stuck)
      ensures old(faults) == [] && StdLoader !in unreadable ==> ok
    {
      hide Has, StandardKept, Fooled, Taken, ModulesIn, Tidied, OursGone;
      ok := InstallBootLoader(false, false, images, configured);
      if !ok {
        ghost var f := files;
        var _ := RestoreSystemLoader(configured);
        if BootmgfwMs in f && BootmgfwMs !in stuck {
          KeptComesBack(f, files, stuck, configured);
        }
      }
    }
  }

  datatype Exec = Starts(path: Path) | NotReady

  // ---- states for which it goes wrong ----

  /** A restoration without a kept loader, pointed by mistake at DcsBoot.efi: it passes the unsized check and replaces
      the only Microsoft loader. */
  method ImpostorReplacesLoader(esp: EfiBoot)
    requires esp.files.Keys == {Bootmgfw, DCS_BOOT} && IsMs(esp.files[Bootmgfw]) && Impostor(esp.files[DCS_BOOT])
    requires esp.Faultless()
    modifies esp
    ensures old(Preserved(esp.files)) && !Preserved(esp.files)
    ensures Bootmgfw in esp.files && esp.files[Bootmgfw] == old(esp.files)[DCS_BOOT]
  {
    hide Has;
    var ok := esp.RestoreSystemLoader(Some(DCS_BOOT));
    assert ok;
  }

  /** An upgrade whose rename fails unnoticed, because bootmgfw.efi is in use, goes on to overwrite it. */
  method UnnoticedRename(esp: EfiBoot, images: Images)
    requires esp.files.Keys == {Bootmgfw} && IsMs(esp.files[Bootmgfw]) && |images.dcsBoot| <= DCS_MAX
    requires esp.faults == [] && esp.unreadable == {} && esp.stuck == {Bootmgfw}
    modifies esp
    ensures old(Preserved(esp.files)) && !Preserved(esp.files)
  {
    hide Has;
    var ok := esp.InstallBootLoader(true, false, images, None);
    assert ok;
  }

  /** What can happen to the partition, in any order: the wizard's preparation and installation, an upgrade (also as
      part of the setup of Windows), a restoration, an update of Windows, and the two rescue actions. `Weather` is a
      change in which operations are going to fail. */
  datatype Step =
    | Prepare(answer: bool)
    | Install(images: Images, configured: Option<Path>)
    | Upgrade(postOOBE: bool, images: Images, configured: Option<Path>)
    | Restore(configured: Option<Path>)
    | Update(path: Path, data: File)
    | Rescue(rescue: Files)
    | BootWindows(rescue: Files)
    | Weather(faults: seq<bool>, stuck: set<Path>, unreadable: set<Path>)
  {
    /** The installer's own loader is small, and Windows brings Microsoft loaders. */
    predicate Ordinary() {
      match this
      case Install(images, _) => |images.dcsBoot| <= DCS_MAX
      case Upgrade(_, images, _) => |images.dcsBoot| <= DCS_MAX
      case Update(path, data) => path in {Bootmgfw, StdLoader} && IsMs(data)
      case _ => true
    }

    /** The exact conditions of the single operations: overwriting bootmgfw.efi is safe, a restoration is not fooled, a
        rescue can read what it replaces. Everything else is safe always. */
    predicate Safe(w: World) {
      match this
      case Upgrade(_, _, _) => Armed(w.files, w.stuck, true)
      case Restore(configured) =>
        var f := StandardBack(w.files, w.stuck);
        BootmgfwMs in f || !Fooled(f, w.stuck, configured)
      case Rescue(_) => BootmgfwMs in w.files || Bootmgfw !in w.unreadable
      case BootWindows(_) => BootmgfwMs in w.files || Bootmgfw !in w.unreadable
      case _ => true
    }

    /** What a step has done to the files, and when it had to succeed. */
    ghost predicate Done(w: World, g: Files, ok: bool, prepared: bool) {
      match this
      case Prepare(_) =>
        && (ok ==> MsIn(g, BootmgfwMs)) && (ok && MsIn(w.files, Bootmgfw) ==> g == KeptFrom(w.files, w.files[Bootmgfw]))
        && (w.faults == [] && MsIn(w.files, Bootmgfw) && Bootmgfw !in w.unreadable ==> ok)
      case Install(images, _) =>
        if !prepared then g == w.files else
          && (ok ==> Bootmgfw in g && g[Bootmgfw] == images.dcsBoot)
          && (ok ==> StandardKept(w.files, g, w.stuck, images.dcsBoot))
          && (ok ==> ModulesIn(g, images) && Tidied(w.files, g, w.stuck) && Gone(g, w.stuck, Vc("PlatformInfo")))
          && (!ok && BootmgfwMs in w.files && BootmgfwMs !in w.stuck ==> Undone(w.files, g, w.stuck))
          && (w.faults == [] && StdLoader !in w.unreadable ==> ok)
      case Upgrade(postOOBE, images, _) =>
        && (ok && !postOOBE ==> Bootmgfw in g && g[Bootmgfw] == images.dcsBoot)
        && (ok && Installs(w.files, true, postOOBE) ==> ModulesIn(g, images))
        && (ok && !Installs(w.files, true, postOOBE) && Settled(w.files) ==> TakenOver(w.files, g, w.stuck))
        && (ok && MsIn(w.files, Bootmgfw) && Bootmgfw !in w.stuck ==>
              BootmgfwMs in g && g[BootmgfwMs] == w.files[Bootmgfw])
        && (w.faults == [] && w.unreadable == {} && MsIn(w.files, Bootmgfw) && !postOOBE ==> ok)
      case Restore(configured) =>
        var f := StandardBack(w.files, w.stuck);
        && (ok ==> SameLoaders(g, LoadersBack(f, w.stuck, configured)) && OursGone(g, w.stuck))
        && (ok <==> RenameWorks(f, w.stuck, BootmgfwMs, Bootmgfw, true) || Readable(f, w.unreadable, configured))
      case Update(path, data) => ok && g == w.files[path := data]
      case Rescue(rescue) =>
        && (ok && (Bootmgfw in w.files || BootmgfwMs in w.files) ==>
              DCS_BOOT in rescue && Bootmgfw in g && g[Bootmgfw] == rescue[DCS_BOOT])
        && (ok ==> RescueBinsIn(rescue, g) && StandardRescued(w.files, g, rescue, w.unreadable))
        && (w.faults == [] && HasBins(rescue) ==> ok)
      case BootWindows(_) => ok && g == w.files
      case Weather(_, _, _) => ok && g == w.files
    }
  }

  /** The partition and what is going to fail on it. */
  datatype World = World(files: Files, faults: seq<bool>, stuck: set<Path>, unreadable: set<Path>)

  function WorldOf(esp: EfiBoot): World
    reads esp
  {
    World(esp.files, esp.faults, esp.stuck, esp.unreadable)
  }

  /** Whether the wizard may install after a step: after a preparation, once, and not after a restoration. */
  function Ready(step: Step, ok: bool, before: bool): bool {
    match step
    case Prepare(_) => before || ok
    case Install(_, _) => false
    case Restore(_) => false
    case _ => before
  }

  /** One safe step; the wizard installs only after a preparation, and no restoration since. */
  method Take(esp: EfiBoot, step: Step, prepared: bool) returns (ok: bool, prepared': bool)
    requires esp.Kept() && step.Ordinary() && step.Safe(WorldOf(esp))
    requires prepared ==> BootmgfwMs in esp.files
    modifies esp
    ensures esp.Kept() && old(esp.history) <= esp.history
    ensures prepared' == Ready(step, ok, prepared) && (prepared' ==> BootmgfwMs in esp.files)
    ensures step.Done(old(WorldOf(esp)), esp.files, ok, prepared)
    ensures step.Weather? ==> WorldOf(esp) == World(old(esp.files), step.faults, step.stuck, step.unreadable)
    ensures !step.Weather? ==> esp.stuck == old(esp.stuck) && esp.unreadable == old(esp.unreadable)
  {
    hide Has, StandardKept, Fooled, Taken, ModulesIn, Tidied, OursGone, Undone, RescueBinsIn, StandardRescued,
         TakenOver;
    ok := true;
    match step {
      case Prepare(answer) =>
        ok := esp.BackupSystemLoader(answer);
      case Install(images, configured) =>
        if prepared {
          ok := esp.Install(images, configured);
        }
      case Upgrade(postOOBE, images, configured) =>
        ok := esp.InstallBootLoader(true, postOOBE, images, configured);
      case Restore(configured) =>
        ok := esp.RestoreSystemLoader(configured);
      case Update(path, data) =>
        esp.WindowsUpdate(path, data);
      case Rescue(rescue) =>
        ok := esp.ActionRestoreDcsLoader(rescue);
      case BootWindows(rescue) =>
        var _ := esp.ActionWindowsBoot(rescue);
      case Weather(faults, stuck, unreadable) =>
        esp.faults, esp.stuck, esp.unreadable := faults, stuck, unreadable;
    }
    prepared' := Ready(step, ok, prepared);
  }

  /** The steps below n have been taken, one after the other, from world to world. */
  ghost predicate StepsTaken(steps: seq<Step>, worlds: seq<World>, oks: seq<bool>, prepared: seq<bool>, n: nat) {
    && n <= |steps| && |worlds| == |prepared| == n + 1 && |oks| == n && !prepared[0]
    && (forall k :: 0 <= k < n ==> steps[k].Safe(worlds[k]))
    && (forall k :: 0 <= k < n ==> steps[k].Done(worlds[k], worlds[k + 1].files, oks[k], prepared[k]))
    && (forall k :: 0 <= k < n ==> prepared[k + 1] == Ready(steps[k], oks[k], prepared[k]))
  }

  lemma NothingTaken(steps: seq<Step>, w: World)
    ensures StepsTaken(steps, [w], [], [false], 0)
  {
  }

  lemma OneMoreTaken(steps: seq<Step>, worlds: seq<World>, oks: seq<bool>, prepared: seq<bool>, n: nat, w: World,
                     ok: bool, ready: bool)
    requires StepsTaken(steps, worlds, oks, prepared, n) && n < |steps|
    requires |worlds| == |prepared| == n + 1 && steps[n].Safe(worlds[n]) && ready == Ready(steps[n], ok, prepared[n])
    requires steps[n].Done(worlds[n], w.files, ok, prepared[n])
    ensures StepsTaken(steps, worlds + [w], oks + [ok], prepared + [ready], n + 1)
  {
    hide Step.Safe, Step.Done, Ready;
  }

  lemma KeptMeans(esp: EfiBoot)
    requires esp.Kept()
    ensures AllPreserved(esp.history) && Preserved(esp.files)
  {
  }

  /** Over every run of ordinary steps, with operations failing at any point, the invariant holds after every file
      operation for as long as each step is safe; where one is not, the run stops before it. At the end the machine
      starts a Microsoft loader, if it can read bootmgfw.efi or another one is kept. */
  method Run(esp: EfiBoot, steps: seq<Step>)
    returns (done: nat, r: Exec, ghost worlds: seq<World>, ghost oks: seq<bool>,
                                                      ghost prepared: seq<bool>)
    requires esp.Kept() && forall k :: 0 <= k < |steps| ==> steps[k].Ordinary()
    modifies esp
    ensures AllPreserved(esp.history) && Preserved(esp.files) && old(esp.history) <= esp.history
    ensures StepsTaken(steps, worlds, oks, prepared, done)
    ensures worlds[0] == old(WorldOf(esp)) && worlds[done] == WorldOf(esp)
    ensures done < |steps| ==> !steps[done].Safe(WorldOf(esp))
    ensures BootmgfwMs in esp.files || Bootmgfw !in esp.unreadable ==> r.Starts? && MsIn(esp.files, r.path)
  {
    hide Step.Safe, Step.Done, Step.Ordinary, StepsTaken, EfiBoot.Kept, Ready;
    NothingTaken(steps, WorldOf(esp));
    var ready := false;
    done, worlds, oks, prepared := 0, [WorldOf(esp)], [], [false];
    while done < |steps| && steps[done].Safe(WorldOf(esp))
      invariant esp.Kept() && old(esp.history) <= esp.history && done <= |steps|
      invariant ready ==> BootmgfwMs in esp.files
      invariant |prepared| == |worlds| == done + 1 && prepared[done] == ready
      invariant StepsTaken(steps, worlds, oks, prepared, done)
      invariant worlds[0] == old(WorldOf(esp)) && worlds[done] == WorldOf(esp)
    {
      var ok;
      ok, ready := Take(esp, steps[done], ready);
      OneMoreTaken(steps, worlds, oks, prepared, done, WorldOf(esp), ok, ready);
      worlds, oks, prepared := worlds + [WorldOf(esp)], oks + [ok], prepared + [ready];
      done := done + 1;
    }
    assert AllPreserved(esp.history) && Preserved(esp.files) by { KeptMeans(esp); }
    r := esp.ExecMSWindowsLoader();
  }

  /** Preparing, installing and restoring on a fresh system gives the Windows loaders back. */
  method InstallThenRestore(esp: EfiBoot, images: Images, configured: Option<Path>) returns (ok: bool)
    requires MsIn(esp.files, Bootmgfw) && esp.Faultless() && |images.dcsBoot| <= DCS_MAX
    requires BootmgfwMs !in esp.files && StdBackup !in esp.files && OldStdBackup !in esp.files
    requires !OursIn(esp.files, StdLoader)
    modifies esp
    ensures ok && BootmgfwMs !in esp.files && StdBackup !in esp.files
    ensures Bootmgfw in esp.files && esp.files[Bootmgfw] == old(esp.files)[Bootmgfw]
    ensures StdLoader in esp.files <==> StdLoader in old(esp.files)
    ensures StdLoader in esp.files ==> esp.files[StdLoader] == old(esp.files)[StdLoader]
  {
    hide Has, IsMs, EfiBoot.Kept, Preserved, Fooled;
    ok := esp.BackupSystemLoader(true);
    ok := esp.Install(images, configured);
    ok := esp.RestoreSystemLoader(configured);
  }
}
