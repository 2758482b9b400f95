/** Extraction of the embedded sentinel: an ordered series of file operations, each of which may fail
    or be the one at which the process dies.

    Distinct embedded binaries are assumed to have distinct hashes, so contents are identified by the
    version they come from.  Renames are atomic; a write may leave a torn file behind. */
module Extraction {

  const EXE := "kbdlock-hook.exe"
  const OLD := "kbdlock-hook.exe.old"
  const TMP := "kbdlock-hook.exe.tmp"
  const HASH := "kbdlock-hook.sha256"

  datatype Content = Binary(version: nat) | Digest(version: nat) | Torn

  type Files = map<string, Content>

  /** What goes wrong with one operation.  The other variants matter to writes only: a torn file stays
      behind, or the whole file is written and the operation fails or dies all the same. */
  datatype Fault = Fine | Fails | FailsTorn | FailsWritten | Crashes | CrashesTorn | CrashesWritten

  datatype Status = Done | Failed | Crashed

  function StatusOf(f: Fault): Status {
    match f
    case Fine => Done
    case Fails => Failed
    case FailsTorn => Failed
    case FailsWritten => Failed
    case Crashes => Crashed
    case CrashesTorn => Crashed
    case CrashesWritten => Crashed
  }

  // ----- single operations -----

  function Removed(fs: Files, name: string, f: Fault): (Files, Status) {
    if f.Fine? && name in fs then (fs - {name}, Done)
    else (fs, if f.Fine? then Failed else StatusOf(f))
  }

  function Renamed(fs: Files, from: string, to: string, f: Fault): (Files, Status) {
    if f.Fine? && from in fs then ((fs - {from})[to := fs[from]], Done)
    else (fs, if f.Fine? then Failed else StatusOf(f))
  }

  function Written(fs: Files, name: string, content: Content, f: Fault): (Files, Status) {
    (if f.Fine? || f.FailsWritten? || f.CrashesWritten? then fs[name := content]
     else if f.FailsTorn? || f.CrashesTorn? then fs[name := Torn]
     else fs,
     StatusOf(f))
  }

  function Looked(fs: Files, name: string, f: Fault): Status {
    if f.Fine? && name !in fs then Failed else StatusOf(f)
  }

  predicate HasSuffix(s: string, suffix: string) {
    |s| >= |suffix| && s[|s| - |suffix|..] == suffix
  }

  predicate IsStale(name: string) {
    HasSuffix(name, ".old") || HasSuffix(name, ".tmp")
  }

  // ----- the whole extraction -----

  /** One fault per operation; `listing` pairs each listed directory entry with its removal's fault. */
  datatype Faults = Faults(
    mkdir: Fault,
    listing: seq<(string, Fault)>,
    readHash: Fault,
    statFast: Fault,
    stat: Fault,
    renameOld: Fault,
    removeExe: Fault,
    writeTmp: Fault,
    renameTmp: Fault,
    removeTmp: Fault,
    writeHash: Fault
  )

  datatype Outcome = UpToDate | Extracted | Error | Died

  predicate Succeeded(o: Outcome) {
    o.UpToDate? || o.Extracted?
  }

  function Cleaned(fs: Files, listing: seq<(string, Fault)>): (Files, Status) {
    if listing == [] then (fs, Done)
    else if !IsStale(listing[0].0) then Cleaned(fs, listing[1..])
    else
      var (after, status) := Removed(fs, listing[0].0, listing[0].1);
      if status.Crashed? then (after, Crashed) else Cleaned(after, listing[1..])
  }

  function Stop(fs: Files, status: Status): (Files, Outcome)
  {
    (fs, if status.Crashed? then Died else Error)
  }

  function Extract(fs: Files, version: nat, x: Faults): (Files, Outcome) {
    if !x.mkdir.Fine? then Stop(fs, StatusOf(x.mkdir))
    else
      var (clean, cleaning) := Cleaned(fs, x.listing);
      if cleaning.Crashed? then (clean, Died)
      else
        var reading := Looked(clean, HASH, x.readHash);
        if reading.Crashed? then (clean, Died)
        else if reading.Done? && clean[HASH] == Digest(version) then
          var checking := Looked(clean, EXE, x.statFast);
          if checking.Crashed? then (clean, Died)
          else if checking.Done? then (clean, UpToDate)
          else MoveAside(clean, version, x)
        else MoveAside(clean, version, x)
  }

  function MoveAside(fs: Files, version: nat, x: Faults): (Files, Outcome) {
    var present := Looked(fs, EXE, x.stat);
    if present.Crashed? then (fs, Died)
    else if present.Failed? then Replace(fs, version, x)
    else
      var (moved, moving) := Renamed(fs, EXE, OLD, x.renameOld);
      if moving.Crashed? then (moved, Died)
      else if moving.Done? then Replace(moved, version, x)
      else
        var (gone, removing) := Removed(moved, EXE, x.removeExe);
        if removing.Crashed? then (gone, Died) else Replace(gone, version, x)
  }

  function Replace(fs: Files, version: nat, x: Faults): (Files, Outcome) {
    var (written, writing) := Written(fs, TMP, Binary(version), x.writeTmp);
    if !writing.Done? then Stop(written, writing)
    else
      var (placed, placing) := Renamed(written, TMP, EXE, x.renameTmp);
      if placing.Crashed? then (placed, Died)
      else if placing.Failed? then
        var (gone, removing) := Removed(placed, TMP, x.removeTmp);
        Stop(gone, removing)
      else
        var (sealed, sealing) := Written(placed, HASH, Digest(version), x.writeHash);
        if !sealing.Done? then Stop(sealed, sealing) else (sealed, Extracted)
  }

  // ----- the code's own form: operations on a file system that changes -----

  class FileSystem {
    var files: Files
    ghost var log: seq<Status>  // how each operation has ended

    /** Nothing has been done after a crash since the log had length n. */
    ghost predicate StopsAtCrash(n: nat)
      reads this
    {
      n <= |log| && forall i :: n <= i < |log| - 1 ==> !log[i].Crashed?
    }

    ghost predicate EndsInCrash(n: nat)
      reads this
    {
      n < |log| && log[|log| - 1].Crashed?
    }

    method MkdirAll(f: Fault) returns (status: Status)
      modifies this
      ensures files == old(files) && status == StatusOf(f) && log == old(log) + [status]
    {
      status := StatusOf(f);
      log := log + [status];
    }

    /** Stat, or the opening of a file to read. */
    method Look(name: string, f: Fault) returns (status: Status)
      modifies this
      ensures files == old(files) && status == Looked(files, name, f) && log == old(log) + [status]
    {
      status := if f.Fine? && name !in files then Failed else StatusOf(f);
      log := log + [status];
    }

    method Remove(name: string, f: Fault) returns (status: Status)
      modifies this
      ensures (files, status) == Removed(old(files), name, f) && log == old(log) + [status]
    {
      if !f.Fine? {
        status := StatusOf(f);
      } else if name !in files {
        status := Failed;
      } else {
        files := files - {name};
        status := Done;
      }
      log := log + [status];
    }

    method Rename(from: string, to: string, f: Fault) returns (status: Status)
      modifies this
      ensures (files, status) == Renamed(old(files), from, to, f) && log == old(log) + [status]
    {
      if !f.Fine? {
        status := StatusOf(f);
      } else if from !in files {
        status := Failed;
      } else {
        var content := files[from];
        files := files - {from};
        files := files[to := content];
        status := Done;
      }
      log := log + [status];
    }

    method WriteFile(name: string, content: Content, f: Fault) returns (status: Status)
      modifies this
      ensures (files, status) == Written(old(files), name, content, f) && log == old(log) + [status]
    {
      if f.Fine? || f.FailsWritten? || f.CrashesWritten? {
        files := files[name := content];
      } else if f.FailsTorn? || f.CrashesTorn? {
        files := files[name := Torn];
      }
      status := StatusOf(f);
      log := log + [status];
    }

    /** A failing removal is ignored; a crash ends everything. */
    method CleanStale(listing: seq<(string, Fault)>) returns (status: Status)
      modifies this
      ensures (files, status) == Cleaned(old(files), listing)
      ensures old(log) <= log && StopsAtCrash(|old(log)|) && (status.Crashed? <==> EndsInCrash(|old(log)|))
    {
      var i := 0;
      while i < |listing|
        invariant 0 <= i <= |listing|
        invariant Cleaned(old(files), listing) == Cleaned(files, listing[i..])
        invariant old(log) <= log && StopsAtCrash(|old(log)|) && !EndsInCrash(|old(log)|)
      {
        var (name, f) := listing[i];
        if IsStale(name) {
          var removing := Remove(name, f);
          if removing.Crashed? {
            return Crashed;
          }
        }
        i := i + 1;
      }
      return Done;
    }

    /** The outcome and the files are those of Extract.  Nothing is done after a crash, and the process
        has died exactly if the last operation was one; success ends with an operation that was done. */
    method ExtractSentinel(version: nat, x: Faults) returns (o: Outcome)
      modifies this
      ensures (files, o) == Extract(old(files), version, x)
      ensures old(log) <= log && StopsAtCrash(|old(log)|) && (o.Died? <==> EndsInCrash(|old(log)|))
      ensures Succeeded(o) ==> |log| > 0 && log[|log| - 1].Done?
    {
      var status := MkdirAll(x.mkdir);
      if status.Crashed? { return Died; }
      if status.Failed? { return Error; }
      status := CleanStale(x.listing);
      if status.Crashed? { return Died; }
      status := Look(HASH, x.readHash);
      if status.Crashed? { return Died; }
      if status.Done? && files[HASH] == Digest(version) {
        status := Look(EXE, x.statFast);
        if status.Crashed? { return Died; }
        if status.Done? { return UpToDate; }
      }
      o := Upgrade(version, x);
    }

    method Upgrade(version: nat, x: Faults) returns (o: Outcome)
      modifies this
      ensures (files, o) == MoveAside(old(files), version, x)
      ensures old(log) <= log && StopsAtCrash(|old(log)|) && (o.Died? <==> EndsInCrash(|old(log)|))
      ensures Succeeded(o) ==> |log| > 0 && log[|log| - 1].Done?
    {
      var status := Look(EXE, x.stat);
      if status.Crashed? { return Died; }
      if status.Done? {
        status := Rename(EXE, OLD, x.renameOld);
        if status.Crashed? { return Died; }
        if status.Failed? {
          status := Remove(EXE, x.removeExe);
          if status.Crashed? { return Died; }
        }
      }
      o := WriteNew(version, x);
    }

    method WriteNew(version: nat, x: Faults) returns (o: Outcome)
      modifies this
      ensures (files, o) == Replace(old(files), version, x)
      ensures old(log) <= log && StopsAtCrash(|old(log)|) && (o.Died? <==> EndsInCrash(|old(log)|))
      ensures Succeeded(o) ==> |log| > 0 && log[|log| - 1].Done?
    {
      var status := WriteFile(TMP, Binary(version), x.writeTmp);
      if status.Crashed? { return Died; }
      if status.Failed? { return Error; }
      status := Rename(TMP, EXE, x.renameTmp);
      if status.Crashed? { return Died; }
      if status.Failed? {
        status := Remove(TMP, x.removeTmp);
        return if status.Crashed? then Died else Error;
      }
      status := WriteFile(HASH, Digest(version), x.writeHash);
      if status.Crashed? { return Died; }
      if status.Failed? { return Error; }
      return Extracted;
    }
  }

  // ----- single operations, read off the files -----

  /** A removal or a renaming is done exactly if the files show it, and is the last thing the process does
      exactly if it dies of it. */
  lemma DoneMeansMoved(fs: Files, from: string, to: string, f: Fault)
    requires from != to
    ensures Removed(fs, from, f).1.Done? <==> from in fs && from !in Removed(fs, from, f).0
    ensures var (after, status) := Renamed(fs, from, to, f);
            status.Done? <==> from in fs && from !in after && to in after && after[to] == fs[from]
    ensures var dies := f.Crashes? || f.CrashesTorn? || f.CrashesWritten?;
            && (Removed(fs, from, f).1.Crashed? <==> dies) && (Renamed(fs, from, to, f).1.Crashed? <==> dies)
            && (Looked(fs, from, f).Crashed? <==> dies) && (Written(fs, from, Torn, f).1.Crashed? <==> dies)
  {
  }

  /** A write that is torn leaves a torn file, which no launch takes for a digest: the next one without
      faults extracts again. */
  lemma TornSidecarIsNotTrusted(fs: Files, version: nat)
    requires !(HASH in fs && EXE in fs && fs[HASH] == Digest(version))
    ensures var (after, o) := Extract(fs, version, NO_FAULTS.(writeHash := FailsTorn));
            o == Error && HASH in after && after[HASH] == Torn && Extract(after, version, NO_FAULTS).1 == Extracted
  {
    KeptNames();
  }

  lemma UnneededRemoval(fs: Files, version: nat, x: Faults, f: Fault)
    requires x.renameTmp.Fine?
    ensures Replace(fs, version, x.(removeTmp := f)) == Replace(fs, version, x)
    ensures MoveAside(fs, version, x.(removeTmp := f)) == MoveAside(fs, version, x)
  {
  }

  lemma UnneededMoves(fs: Files, version: nat, x: Faults, f: Fault)
    ensures EXE !in fs ==> MoveAside(fs, version, x.(renameOld := f)) == MoveAside(fs, version, x)
    ensures EXE !in fs || x.renameOld.Fine? ==> MoveAside(fs, version, x.(removeExe := f)) == MoveAside(fs, version, x)
  {
  }

  /** Nothing is attempted that is not needed: no exe, no moving it aside; moved aside, no removing it;
      the new one placed, no removing its temporary name. */
  lemma UnneededOperations(fs: Files, version: nat, x: Faults, f: Fault)
    ensures EXE !in fs ==> Extract(fs, version, x.(renameOld := f)) == Extract(fs, version, x)
    ensures EXE !in fs || x.renameOld.Fine? ==> Extract(fs, version, x.(removeExe := f)) == Extract(fs, version, x)
    ensures x.renameTmp.Fine? ==> Extract(fs, version, x.(removeTmp := f)) == Extract(fs, version, x)
  {
    var clean := Cleaned(fs, x.listing).0;
    CleaningKeeps(fs, x.listing);
    UnneededMoves(clean, version, x, f);
    if x.renameTmp.Fine? {
      UnneededRemoval(clean, version, x, f);
    }
  }

  /** The old exe is out of the way before the new one is written, unless it can be neither renamed nor
      removed; seen when the writing then fails. */
  lemma OldIsOutOfTheWay(fs: Files, version: nat, x: Faults)
    requires EXE in fs && x.stat.Fine? && StatusOf(x.writeTmp).Failed?
    requires !StatusOf(x.renameOld).Crashed? && !StatusOf(x.removeExe).Crashed?
    ensures EXE in MoveAside(fs, version, x).0 <==> !x.renameOld.Fine? && !x.removeExe.Fine?
  {
    KeptNames();
  }

  // ----- crash consistency -----

  /** No version above `top` has been seen, the exe is never torn, and a complete sidecar hash is never
      newer than the exe present. */
  predicate Consistent(fs: Files, top: nat) {
    && (EXE in fs ==> fs[EXE].Binary? && fs[EXE].version <= top)
    && (HASH in fs && fs[HASH].Digest? ==>
          fs[HASH].version <= top && (EXE in fs ==> fs[HASH].version <= fs[EXE].version))
  }

  lemma KeptNames()
    ensures !IsStale(EXE) && !IsStale(HASH)
    ensures EXE != HASH && EXE != OLD && EXE != TMP && HASH != OLD && HASH != TMP
    ensures IsStale(OLD) && IsStale(TMP)
  {
  }

  predicate SameKept(a: Files, b: Files) {
    && (EXE in a <==> EXE in b) && (EXE in a ==> a[EXE] == b[EXE])
    && (HASH in a <==> HASH in b) && (HASH in a ==> a[HASH] == b[HASH])
  }

  /** Cleaning up never touches the exe or the sidecar. */
  lemma {:induction false} CleaningKeeps(fs: Files, listing: seq<(string, Fault)>)
    ensures SameKept(fs, Cleaned(fs, listing).0)
    decreases listing
  {
    KeptNames();
    if listing != [] {
      var (after, status) := Removed(fs, listing[0].0, listing[0].1);
      CleaningKeeps(fs, listing[1..]);
      CleaningKeeps(after, listing[1..]);
    }
  }

  // ----- what cleaning removes -----

  /** Removing the i-th listed name, a stale one, is the operation at which the process dies. */
  predicate DiesAt(listing: seq<(string, Fault)>, i: nat)
    requires i < |listing|
  {
    IsStale(listing[i].0) && StatusOf(listing[i].1).Crashed?
  }

  /** The i-th listed name is stale, the process gets that far, and its removal goes well. */
  predicate RemovedAt(listing: seq<(string, Fault)>, i: nat)
    requires i < |listing|
  {
    && IsStale(listing[i].0) && listing[i].1.Fine?
    && forall j :: 0 <= j < i ==> !DiesAt(listing, j)
  }

  predicate RemovedIn(listing: seq<(string, Fault)>, name: string) {
    exists i :: 0 <= i < |listing| && listing[i].0 == name && RemovedAt(listing, i)
  }

  predicate DiesIn(listing: seq<(string, Fault)>) {
    exists i :: 0 <= i < |listing| && DiesAt(listing, i)
  }

  lemma RemovedFirstOrLater(listing: seq<(string, Fault)>, name: string)
    requires listing != []
    ensures RemovedIn(listing, name) <==>
            || (listing[0].0 == name && RemovedAt(listing, 0))
            || (!DiesAt(listing, 0) && RemovedIn(listing[1..], name))
    ensures DiesIn(listing) <==> DiesAt(listing, 0) || DiesIn(listing[1..])
  {
    var rest := listing[1..];
    forall i: nat | i < |rest|
      ensures DiesAt(listing, i + 1) <==> DiesAt(rest, i)
      ensures RemovedAt(listing, i + 1) <==> !DiesAt(listing, 0) && RemovedAt(rest, i)
    {
      if !DiesAt(listing, 0) && RemovedAt(rest, i) {
        assert forall j :: 0 < j < i + 1 ==> (DiesAt(listing, j) <==> DiesAt(rest, j - 1));
      } else if RemovedAt(listing, i + 1) {
        assert !DiesAt(listing, 0);
        assert forall j :: 0 <= j < i ==> (DiesAt(rest, j) <==> DiesAt(listing, j + 1));
      }
    }
    if RemovedIn(listing, name) {
      var i :| 0 <= i < |listing| && listing[i].0 == name && RemovedAt(listing, i);
      assert i > 0 ==> rest[i - 1].0 == name;
    }
    if RemovedIn(rest, name) {
      var i :| 0 <= i < |rest| && rest[i].0 == name && RemovedAt(rest, i);
      assert listing[i + 1].0 == name;
    }
    if DiesIn(listing) {
      var i :| 0 <= i < |listing| && DiesAt(listing, i);
      assert i > 0 ==> DiesAt(rest, i - 1);
    }
    if DiesIn(rest) {
      var i :| 0 <= i < |rest| && DiesAt(rest, i);
      assert DiesAt(listing, i + 1);
    }
  }

  /** Exactly the stale names whose removal is reached and goes well are gone; every other file stays as
      it was; and cleaning dies exactly if one of the removals does. */
  lemma {:induction false} CleaningRemoves(fs: Files, listing: seq<(string, Fault)>, name: string)
    ensures var (after, status) := Cleaned(fs, listing);
            && (name in after <==> name in fs && !RemovedIn(listing, name))
            && (name in after ==> after[name] == fs[name])
            && status == if DiesIn(listing) then Crashed else Done
    decreases listing
  {
    if listing != [] {
      RemovedFirstOrLater(listing, name);
      CleaningRemoves(Removed(fs, listing[0].0, listing[0].1).0, listing[1..], name);
      CleaningRemoves(fs, listing[1..], name);
    }
  }

  /** If all goes well, a file stays iff it is not both listed and stale: a name in .old or .tmp. */
  lemma FineCleaningRemoves(fs: Files, listing: seq<(string, Fault)>, name: string)
    requires forall e :: e in listing ==> e.1.Fine?
    ensures name in Cleaned(fs, listing).0 <==>
            name in fs && !((exists e :: e in listing && e.0 == name)
                            && |name| >= 4 && name[|name| - 4..] in {".old", ".tmp"})
  {
    CleaningRemoves(fs, listing, name);
    forall i | 0 <= i < |listing|
      ensures !DiesAt(listing, i)
    {
      assert listing[i] in listing;
    }
    if e :| e in listing && e.0 == name && IsStale(name) {
      var i :| 0 <= i < |listing| && listing[i] == e;
      assert RemovedAt(listing, i);
    }
  }

  lemma ReplaceKeeps(fs: Files, version: nat, x: Faults)
    requires Consistent(fs, version)
    ensures var (after, o) := Replace(fs, version, x);
            Consistent(after, version) && (Succeeded(o) ==> EXE in after && after[EXE] == Binary(version))
  {
  }

  lemma MoveAsideKeeps(fs: Files, version: nat, x: Faults)
    requires Consistent(fs, version)
    ensures var (after, o) := MoveAside(fs, version, x);
            Consistent(after, version) && (Succeeded(o) ==> EXE in after && after[EXE] == Binary(version))
  {
    KeptNames();
    var (moved, moving) := Renamed(fs, EXE, OLD, x.renameOld);
    var (gone, removing) := Removed(moved, EXE, x.removeExe);
    ReplaceKeeps(fs, version, x);
    if EXE in fs {
      ReplaceKeeps(moved, version, x);
      ReplaceKeeps(gone, version, x);
    }
  }

  /** Whatever fails and wherever it dies, an extraction of a version at least as new keeps the files
      consistent, and success means the exe is exactly the embedded binary. */
  lemma ExtractKeepsConsistent(fs: Files, top: nat, version: nat, x: Faults)
    requires Consistent(fs, top) && top <= version
    ensures var (after, o) := Extract(fs, version, x);
            Consistent(after, version) && (Succeeded(o) ==> EXE in after && after[EXE] == Binary(version))
  {
    CleaningKeeps(fs, x.listing);
    MoveAsideKeeps(Cleaned(fs, x.listing).0, version, x);
  }

  // ----- runs -----

  datatype Launch = Launch(version: nat, faults: Faults)

  function RunAll(fs: Files, launches: seq<Launch>): Files {
    if launches == [] then fs
    else
      var n := |launches| - 1;
      Extract(RunAll(fs, launches[..n]), launches[n].version, launches[n].faults).0
  }

  predicate NonDecreasing(launches: seq<Launch>) {
    forall i, j :: 0 <= i < j < |launches| ==> launches[i].version <= launches[j].version
  }

  lemma {:induction false} RunsStayConsistent(launches: seq<Launch>)
    requires NonDecreasing(launches)
    ensures Consistent(RunAll(map[], launches), if launches == [] then 0 else launches[|launches| - 1].version)
  {
    if launches != [] {
      var n := |launches| - 1;
      RunsStayConsistent(launches[..n]);
      ExtractKeepsConsistent(RunAll(map[], launches[..n]), if n == 0 then 0 else launches[n - 1].version,
                             launches[n].version, launches[n].faults);
    }
  }

  /** For every series of launches with non-decreasing versions, each failing or dying anywhere: a
      launch that reports success left exactly its own binary in place. */
  lemma SuccessIsExact(launches: seq<Launch>, n: nat)
    requires NonDecreasing(launches) && n < |launches|
    requires Succeeded(Extract(RunAll(map[], launches[..n]), launches[n].version, launches[n].faults).1)
    ensures var after := RunAll(map[], launches[..n + 1]);
            EXE in after && after[EXE] == Binary(launches[n].version)
  {
    RunsStayConsistent(launches[..n]);
    ExtractKeepsConsistent(RunAll(map[], launches[..n]), if n == 0 then 0 else launches[n - 1].version,
                           launches[n].version, launches[n].faults);
    assert launches[..n + 1][..n] == launches[..n];
  }

  /** Nothing goes wrong. */
  predicate AllFine(x: Faults) {
    && x.mkdir.Fine? && x.readHash.Fine? && x.statFast.Fine? && x.stat.Fine? && x.renameOld.Fine?
    && x.removeExe.Fine? && x.writeTmp.Fine? && x.renameTmp.Fine? && x.removeTmp.Fine? && x.writeHash.Fine?
    && forall e :: e in x.listing ==> e.1.Fine?
  }

  lemma {:induction false} FineCleaningFinishes(fs: Files, listing: seq<(string, Fault)>)
    requires forall e :: e in listing ==> e.1.Fine?
    ensures Cleaned(fs, listing).1.Done?
    decreases listing
  {
    if listing != [] {
      assert listing[0] in listing;
      FineCleaningFinishes(fs, listing[1..]);
      FineCleaningFinishes(Removed(fs, listing[0].0, listing[0].1).0, listing[1..]);
    }
  }

  predicate Sealed(fs: Files, version: nat) {
    EXE in fs && HASH in fs && fs[HASH] == Digest(version)
  }

  lemma FineReplaceSeals(fs: Files, version: nat, x: Faults)
    requires AllFine(x)
    ensures Replace(fs, version, x).1 == Extracted && Sealed(Replace(fs, version, x).0, version)
  {
    KeptNames();
  }

  lemma FineLaunchSucceeds(fs: Files, version: nat, x: Faults)
    requires AllFine(x)
    ensures Succeeded(Extract(fs, version, x).1) && Sealed(Extract(fs, version, x).0, version)
  {
    FineCleaningFinishes(fs, x.listing);
    var clean := Cleaned(fs, x.listing).0;
    FineReplaceSeals(clean, version, x);
    FineReplaceSeals(Renamed(clean, EXE, OLD, x.renameOld).0, version, x);
  }

  lemma SealedIsUpToDate(fs: Files, version: nat, y: Faults)
    requires AllFine(y) && Sealed(fs, version)
    ensures Extract(fs, version, y).1 == UpToDate && SameKept(fs, Extract(fs, version, y).0)
  {
    FineCleaningFinishes(fs, y.listing);
    CleaningKeeps(fs, y.listing);
  }

  /** The listing names every file there is. */
  predicate ListsAll(fs: Files, listing: seq<(string, Fault)>) {
    forall name :: name in fs ==> exists e :: e in listing && e.0 == name
  }

  lemma UpToDateLeavesNoStale(fs: Files, version: nat, y: Faults, name: string)
    requires AllFine(y) && Sealed(fs, version) && ListsAll(fs, y.listing)
    requires name in {"kbdlock-hook.exe.old", "kbdlock-hook.exe.tmp"}
    ensures name !in Extract(fs, version, y).0
  {
    FineCleaningFinishes(fs, y.listing);
    FineCleaningRemoves(fs, y.listing, name);
    CleaningKeeps(fs, y.listing);
    StaleNames();
  }

  lemma StaleNames()
    ensures "kbdlock-hook.exe.old"[16..] == ".old" && "kbdlock-hook.exe.tmp"[16..] == ".tmp"
  {
  }

  /** An upgrade keeps the executable it replaces: if it can be renamed, it is there under its old name
      as soon as the extraction is through. */
  lemma UpgradeKeepsOld(fs: Files, version: nat, x: Faults)
    requires EXE in fs && x.stat.Fine? && x.renameOld.Fine? && Extract(fs, version, x).1 == Extracted
    ensures var after := Extract(fs, version, x).0;
            OLD in after && after[OLD] == fs[EXE] && TMP !in after && after[EXE] == Binary(version)
  {
    KeptNames();
    CleaningKeeps(fs, x.listing);
  }

  /** Recovery: from any files at all, whatever earlier interruptions left behind, a launch in which
      nothing goes wrong succeeds, and the next one finds the binary up to date and leaves the exe and
      the sidecar alone; if that one's listing is complete, it has cleared away what was left over. */
  lemma FaultFreeLaunchRecovers(fs: Files, version: nat, x: Faults, y: Faults)
    requires AllFine(x) && AllFine(y)
    ensures Succeeded(Extract(fs, version, x).1)
    ensures var after := Extract(fs, version, x).0;
            Extract(after, version, y).1 == UpToDate && SameKept(after, Extract(after, version, y).0)
    ensures var after := Extract(fs, version, x).0;
            ListsAll(after, y.listing) ==>
              OLD !in Extract(after, version, y).0 && TMP !in Extract(after, version, y).0
  {
    FineLaunchSucceeds(fs, version, x);
    var after := Extract(fs, version, x).0;
    SealedIsUpToDate(after, version, y);
    if ListsAll(after, y.listing) {
      UpToDateLeavesNoStale(after, version, y, OLD);
      UpToDateLeavesNoStale(after, version, y, TMP);
    }
  }

  // ----- where success can be wrong -----

  /** The files that the fast path mistakes for the wanted version. */
  predicate Misleading(fs: Files, version: nat) {
    HASH in fs && fs[HASH] == Digest(version) && EXE in fs && fs[EXE] != Binary(version)
  }

  const NO_FAULTS := Faults(Fine, [], Fine, Fine, Fine, Fine, Fine, Fine, Fine, Fine, Fine)

  predicate Right(r: (Files, Outcome), version: nat) {
    Succeeded(r.1) ==> EXE in r.0 && r.0[EXE] == Binary(version)
  }

  lemma MoveAsideIsRight(fs: Files, version: nat, x: Faults)
    ensures Right(MoveAside(fs, version, x), version)
  {
  }

  lemma ExtractIsRight(fs: Files, version: nat, x: Faults)
    requires !Misleading(fs, version)
    ensures Right(Extract(fs, version, x), version)
  {
    CleaningKeeps(fs, x.listing);
    MoveAsideIsRight(Cleaned(fs, x.listing).0, version, x);
  }

  /** From arbitrary files, success is right for every fault pattern exactly when the sidecar does not
      name the wanted version beside a different exe. */
  lemma SuccessIsRightIff(fs: Files, version: nat)
    ensures (forall x :: Right(Extract(fs, version, x), version)) <==> !Misleading(fs, version)
  {
    if Misleading(fs, version) {
      assert Extract(fs, version, NO_FAULTS) == (fs, UpToDate);
      assert !Right(Extract(fs, version, NO_FAULTS), version);
    } else {
      forall x
        ensures Right(Extract(fs, version, x), version)
      {
        ExtractIsRight(fs, version, x);
      }
    }
  }

  /** A rollback can mislead: version 5, then an interrupted launch of version 3, then version 5 again
      reports success with version 3 in place. */
  lemma RollbackCanMislead()
    ensures var launches := [Launch(5, NO_FAULTS), Launch(3, NO_FAULTS.(writeHash := Crashes))];
            var fs := RunAll(map[], launches);
            && Misleading(fs, 5)
            && Extract(fs, 5, NO_FAULTS).1 == UpToDate && Extract(fs, 5, NO_FAULTS).0[EXE] == Binary(3)
  {
  }

  // ----- which orders of versions are safe -----

  /** Launches of the given versions, in that order. */
  predicate HaveVersions(launches: seq<Launch>, vs: seq<nat>) {
    |launches| == |vs| && forall i :: 0 <= i < |vs| ==> launches[i].version == vs[i]
  }

  /** If the last launch reports success, its own binary is in place. */
  predicate EndsRight(launches: seq<Launch>)
    requires launches != []
  {
    var n := |launches| - 1;
    Right(Extract(RunAll(map[], launches[..n]), launches[n].version, launches[n].faults), launches[n].version)
  }

  /** The last version was launched before, and another one in between. */
  predicate Returns(vs: seq<nat>, i: nat, j: nat) {
    i < j < |vs| - 1 && vs[i] == vs[|vs| - 1] && vs[j] != vs[|vs| - 1]
  }

  /** The complete sidecar is that of launch a, and the exe that of launch b, which is not an earlier
      one. */
  predicate Traced(fs: Files, vs: seq<nat>, a: nat, b: nat) {
    && a <= b
    && (HASH in fs && fs[HASH].Digest? ==> a < |vs| && fs[HASH] == Digest(vs[a]))
    && (EXE in fs ==> b < |vs| && fs[EXE] == Binary(vs[b]))
  }

  /** An exe is kept or new, and so is a complete sidecar; a new sidecar comes with its exe. */
  predicate Moved(fs: Files, after: Files, version: nat) {
    && (EXE in after ==> after[EXE] == Binary(version) || (EXE in fs && after[EXE] == fs[EXE]))
    && (HASH in after && after[HASH].Digest? ==>
          || (HASH in fs && after[HASH] == fs[HASH])
          || (after[HASH] == Digest(version) && EXE in after && after[EXE] == Binary(version)))
  }

  lemma ReplaceMoves(fs: Files, version: nat, x: Faults)
    ensures Moved(fs, Replace(fs, version, x).0, version)
  {
    KeptNames();
  }

  lemma MoveAsideMoves(fs: Files, version: nat, x: Faults)
    ensures Moved(fs, MoveAside(fs, version, x).0, version)
  {
    KeptNames();
    var (moved, moving) := Renamed(fs, EXE, OLD, x.renameOld);
    var (gone, removing) := Removed(moved, EXE, x.removeExe);
    ReplaceMoves(fs, version, x);
    if EXE in fs {
      ReplaceMoves(moved, version, x);
      ReplaceMoves(gone, version, x);
    }
  }

  lemma ExtractMoves(fs: Files, version: nat, x: Faults)
    ensures Moved(fs, Extract(fs, version, x).0, version)
  {
    CleaningKeeps(fs, x.listing);
    MoveAsideMoves(Cleaned(fs, x.listing).0, version, x);
  }

  lemma TraceOn(fs: Files, after: Files, vs: seq<nat>, version: nat, a: nat, b: nat) returns (c: nat, d: nat)
    requires Traced(fs, vs, a, b) && Moved(fs, after, version)
    ensures Traced(after, vs + [version], c, d)
  {
    var n := |vs|;
    if !(HASH in after && after[HASH].Digest?) {
      c := 0;
    } else if HASH in fs && after[HASH] == fs[HASH] {
      c := a;
    } else {
      c := n;
    }
    d := if c == n || (EXE in after && after[EXE] == Binary(version)) then n else b;
  }

  lemma {:induction false} RunsAreTraced(launches: seq<Launch>, vs: seq<nat>) returns (a: nat, b: nat)
    requires HaveVersions(launches, vs)
    ensures Traced(RunAll(map[], launches), vs, a, b)
  {
    a, b := 0, 0;
    if launches != [] {
      var n := |launches| - 1;
      var fs := RunAll(map[], launches[..n]);
      a, b := RunsAreTraced(launches[..n], vs[..n]);
      ExtractMoves(fs, vs[n], launches[n].faults);
      a, b := TraceOn(fs, RunAll(map[], launches), vs[..n], vs[n], a, b);
      assert vs[..n] + [vs[n]] == vs;
    }
  }

  lemma MisleadingReturns(fs: Files, vs: seq<nat>, a: nat, b: nat)
    requires vs != [] && Traced(fs, vs[..|vs| - 1], a, b) && Misleading(fs, vs[|vs| - 1])
    ensures Returns(vs, a, b)
  {
  }

  lemma NoReturnEndsRight(launches: seq<Launch>, vs: seq<nat>)
    requires vs != [] && HaveVersions(launches, vs) && !exists i, j :: Returns(vs, i, j)
    ensures EndsRight(launches)
  {
    var n := |vs| - 1;
    var fs := RunAll(map[], launches[..n]);
    var a, b := RunsAreTraced(launches[..n], vs[..n]);
    if Misleading(fs, vs[n]) {
      MisleadingReturns(fs, vs, a, b);
      assert false;
    }
    ExtractIsRight(fs, vs[n], launches[n].faults);
  }

  /** Launch i completes, launch j dies before it has written the sidecar, the last one completes, and
      all others fail at once. */
  function Plan(k: nat, i: nat, j: nat, last: nat): Faults {
    if k == i || k == last then NO_FAULTS
    else if k == j then NO_FAULTS.(writeHash := Crashes)
    else NO_FAULTS.(mkdir := Fails)
  }

  predicate Follows(launches: seq<Launch>, i: nat, j: nat) {
    forall k :: 0 <= k < |launches| ==> launches[k].faults == Plan(k, i, j, |launches| - 1)
  }

  lemma {:induction false} FailingLaunchesKeep(launches: seq<Launch>, m: nat, n: nat)
    requires m <= n <= |launches| && forall k :: m <= k < n ==> launches[k].faults.mkdir.Fails?
    ensures RunAll(map[], launches[..n]) == RunAll(map[], launches[..m])
    decreases n
  {
    if m < n {
      FailingLaunchesKeep(launches, m, n - 1);
      assert launches[..n][..n - 1] == launches[..n - 1];
    }
  }

  lemma NextLaunch(launches: seq<Launch>, k: nat)
    requires k < |launches|
    ensures RunAll(map[], launches[..k + 1])
            == Extract(RunAll(map[], launches[..k]), launches[k].version, launches[k].faults).0
  {
    assert launches[..k + 1][..k] == launches[..k];
  }

  function SealedBy(v: nat): Files {
    map[EXE := Binary(v), HASH := Digest(v)]
  }

  lemma FirstLaunchSeals(v: nat)
    ensures Extract(map[], v, NO_FAULTS).0 == SealedBy(v)
  {
    KeptNames();
  }

  lemma InterruptedLaunchMisleads(v: nat, w: nat)
    requires v != w
    ensures Misleading(Extract(SealedBy(v), w, NO_FAULTS.(writeHash := Crashes)).0, v)
  {
    KeptNames();
  }

  lemma MisleadingIsWrong(fs: Files, version: nat)
    requires Misleading(fs, version)
    ensures !Right(Extract(fs, version, NO_FAULTS), version)
  {
    assert Extract(fs, version, NO_FAULTS) == (fs, UpToDate);
  }

  lemma SealedUntil(launches: seq<Launch>, i: nat, j: nat)
    requires i < j < |launches| - 1 && Follows(launches, i, j)
    ensures RunAll(map[], launches[..j]) == SealedBy(launches[i].version)
  {
    FailingLaunchesKeep(launches, 0, i);
    assert launches[..0] == [];
    NextLaunch(launches, i);
    FirstLaunchSeals(launches[i].version);
    FailingLaunchesKeep(launches, i + 1, j);
  }

  lemma InterruptedAt(launches: seq<Launch>, i: nat, j: nat) returns (fs: Files)
    requires i < j < |launches| - 1 && Follows(launches, i, j)
    requires launches[i].version != launches[j].version
    ensures fs == RunAll(map[], launches[..j + 1]) && Misleading(fs, launches[i].version)
  {
    fs := Extract(SealedBy(launches[i].version), launches[j].version, launches[j].faults).0;
    SealedUntil(launches, i, j);
    NextLaunch(launches, j);
    InterruptedLaunchMisleads(launches[i].version, launches[j].version);
  }

  lemma MisleadingAfter(launches: seq<Launch>, i: nat, j: nat) returns (fs: Files)
    requires i < j < |launches| - 1 && Follows(launches, i, j)
    requires launches[i].version != launches[j].version
    ensures fs == RunAll(map[], launches[..|launches| - 1]) && Misleading(fs, launches[i].version)
  {
    fs := InterruptedAt(launches, i, j);
    FailingLaunchesKeep(launches, j + 1, |launches| - 1);
  }

  lemma ReturnEndsWrong(launches: seq<Launch>, vs: seq<nat>, i: nat, j: nat)
    requires Returns(vs, i, j) && HaveVersions(launches, vs) && Follows(launches, i, j)
    ensures !EndsRight(launches)
  {
    var fs := MisleadingAfter(launches, i, j);
    MisleadingIsWrong(fs, vs[i]);
  }

  /** The exact condition on the versions: whatever fails and wherever launches die, success means the
      right exe, if and only if the version has not been launched before with another one in between. */
  lemma SuccessIsExactIff(vs: seq<nat>)
    requires vs != []
    ensures (forall launches :: HaveVersions(launches, vs) ==> EndsRight(launches))
            <==> !exists i, j :: Returns(vs, i, j)
  {
    if i, j :| Returns(vs, i, j) {
      var launches := seq(|vs|, k requires 0 <= k < |vs| => Launch(vs[k], Plan(k, i, j, |vs| - 1)));
      ReturnEndsWrong(launches, vs, i, j);
    } else {
      forall launches | HaveVersions(launches, vs)
        ensures EndsRight(launches)
      {
        NoReturnEndsRight(launches, vs);
      }
    }
  }
}
