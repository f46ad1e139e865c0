/**
 * Key rotation (backend/rekey.py) on a disk where any write may fail, stop short or be the
 * last thing that happens before a crash.
 */
module Rekey {
  import opened Bytes
  import opened Envelope

  type Path = string
  type Files = map<Path, bytes>

  /** What happens to one disk operation; `kept` bytes of a write reach the disk. */
  datatype Fault = Fine | Short(kept: nat) | Fails(kept: nat) | Crashes(kept: nat)

  datatype Step = Done | IoError | Crash

  function Kept(f: Fault, n: nat): (k: nat)
    ensures k <= n
  {
    if f.Fine? then n else Min(f.kept, n)
  }

  function StepOf(f: Fault): Step {
    if f.Fails? then IoError else if f.Crashes? then Crash else Done
  }

  /** A disk, and what will go wrong at each operation on it. */
  class Disk {
    var files: Files
    var ticks: nat
    const faults: nat -> Fault

    constructor (files: Files, faults: nat -> Fault)
      ensures this.files == files && this.faults == faults && ticks == 0
    {
      this.files, this.faults, ticks := files, faults, 0;
    }

    ghost predicate Faultless() { forall i :: faults(i) == Fine }

    /** `open(p, "wb")`: the file exists and is empty. */
    method Create(p: Path) returns (s: Step)
      modifies this
      ensures files == old(files) || files == old(files)[p := []]
      ensures s == Done ==> files == old(files)[p := []]
      ensures Faultless() ==> s == Done
    {
      var f := faults(ticks);
      ticks := ticks + 1;
      if f.Fine? || f.kept > 0 || StepOf(f) == Done { files := files[p := []]; }
      return StepOf(f);
    }

    /** A write at the end of an open file: some prefix of the data reaches it. */
    method Append(p: Path, data: bytes) returns (s: Step)
      requires p in files
      modifies this
      ensures exists k: nat :: k <= |data| && files == old(files)[p := old(files)[p] + data[..k]]
      ensures Faultless() ==> s == Done && files == old(files)[p := old(files)[p] + data]
    {
      var f := faults(ticks);
      ticks := ticks + 1;
      var k := Kept(f, |data|);
      files := files[p := files[p] + data[..k]];
      assert k <= |data| && files == old(files)[p := old(files)[p] + data[..k]];
      assert data[..|data|] == data;
      return StepOf(f);
    }

    /** An operation that changes no contents, such as `chmod`. */
    method Touch() returns (s: Step)
      modifies this
      ensures files == old(files)
      ensures Faultless() ==> s == Done
    {
      var f := faults(ticks);
      ticks := ticks + 1;
      return StepOf(f);
    }

    /** `tmp.replace(p)`: atomic, so it has happened or it has not. */
    method Replace(tmp: Path, p: Path) returns (s: Step)
      requires tmp in files && tmp != p
      modifies this
      ensures files == old(files) || files == old(files)[p := old(files)[tmp]] - {tmp}
      ensures s == Done ==> files == old(files)[p := old(files)[tmp]] - {tmp}
      ensures s == IoError ==> files == old(files)
      ensures Faultless() ==> s == Done
    {
      var f := faults(ticks);
      ticks := ticks + 1;
      if StepOf(f) == Done || (f.Crashes? && f.kept > 0) { files := files[p := files[tmp]] - {tmp}; }
      return StepOf(f);
    }

    /** `p.unlink(missing_ok=True)`. */
    method Unlink(p: Path) returns (s: Step)
      modifies this
      ensures files == old(files) || files == old(files) - {p}
      ensures s == Done ==> files == old(files) - {p}
    {
      var f := faults(ticks);
      ticks := ticks + 1;
      if StepOf(f) == Done || f.kept > 0 { files := files - {p}; }
      return StepOf(f);
    }
  }

  // --- one file ------------------------------------------------------------------------------

  function Tmp(p: Path): (t: Path)
    ensures t != p && |t| == |p| + 8
  {
    p + ".partial"
  }

  function HeaderOf(file: bytes): bytes { Slice(file, 0, HEADER_LEN) }

  predicate Under(c: Crypto, kek: bytes, file: bytes) { UnwrapDek(c, kek, HeaderOf(file)).Dek? }

  /** No object gives a data key of another length: its wrapping fills the header's last 48 bytes. */
  lemma DataKeysAreFullLength(c: Crypto, kek: bytes, file: bytes)
    requires Ideal(c) && Under(c, kek, file)
    ensures |UnwrapDek(c, kek, HeaderOf(file)).dek| == DEK_LEN && |file| >= HEADER_LEN
  {
    var h := HeaderOf(file);
    var dek := UnwrapDek(c, kek, h).dek;
    assert h[36..84] == c.enc(kek, h[24..36], dek, MAGIC + h[8..24]);
  }

  /** The same object under the new key: same data key, same body, same length. */
  predicate Rewrapped(c: Crypto, old': bytes, new': bytes, a: bytes, b: bytes) {
    && Under(c, old', a) && Under(c, new', b)
    && UnwrapDek(c, new', HeaderOf(b)) == UnwrapDek(c, old', HeaderOf(a))
    && |a| == |b| && |a| >= HEADER_LEN && a[HEADER_LEN..] == b[HEADER_LEN..]
  }

  /** A re-wrapped object opens under the new key to exactly what it held under the old one. */
  lemma RewrappedOpens(c: Crypto, old': bytes, new': bytes, a: bytes, b: bytes)
    requires Rewrapped(c, old', new', a, b)
    ensures Open(c, new', b) == Open(c, old', a)
  {
  }

  datatype Status = Rekeyed | Already | Plaintext | Failed | Crashed

  function NewHeader(c: Crypto, old': bytes, new': bytes, nonce: bytes, file: bytes): bytes
    requires Under(c, old', file)
  {
    HeaderForDek(c, new', UnwrapDek(c, old', HeaderOf(file)).dek, nonce)
  }

  /** What `rekey_file` decides before it writes anything. */
  function Decide(c: Crypto, old': bytes, new': bytes, nonce: bytes, files: Files, p: Path): Status {
    if p !in files then Failed
    else
      var file := files[p];
      if !(MAGIC <= HeaderOf(file)) then Plaintext
      else if Under(c, new', file) then Already
      else if !Under(c, old', file) then Failed
      else if UnwrapDek(c, new', NewHeader(c, old', new', nonce, file)) != UnwrapDek(c, old', HeaderOf(file)) then
        Failed
      else Rekeyed
  }

  /** The disk after one file's rotation with nothing going wrong. */
  function FilesAfter(c: Crypto, old': bytes, new': bytes, nonce: bytes, files: Files, p: Path): Files {
    if Decide(c, old', new', nonce, files, p) != Rekeyed then files
    else files[p := NewHeader(c, old', new', nonce, files[p]) + files[p][HEADER_LEN..]] - {Tmp(p)}
  }

  /** Everything a rotation of `p` may do to the disk, wherever it stops. */
  ghost predicate Contained(c: Crypto, old': bytes, new': bytes, before: Files, after: Files, p: Path) {
    && (forall q :: q != p && q != Tmp(p) ==> (q in after <==> q in before))
    && (forall q :: q != p && q != Tmp(p) && q in before ==> after[q] == before[q])
    && (p in after <==> p in before)
    && (p in before ==> after[p] == before[p]
                        || (!Under(c, new', before[p]) && Rewrapped(c, old', new', before[p], after[p])))
  }

  ghost predicate OnlyTmpDiffers(before: Files, after: Files, p: Path) {
    && (forall q :: q != Tmp(p) ==> (q in after <==> q in before))
    && (forall q :: q != Tmp(p) && q in before ==> after[q] == before[q])
  }

  lemma TmpWritten(before: Files, mid: Files, p: Path, data: bytes)
    requires OnlyTmpDiffers(before, mid, p)
    ensures OnlyTmpDiffers(before, mid[Tmp(p) := data], p)
  {
  }

  const COPY_CHUNK := 1024 * 1024

  /** At most what was written so far of a copy is there, and all of it if as much is there. */
  predicate CopiedTo(header: bytes, src: bytes, pos: nat, written: bytes) {
    && HEADER_LEN <= pos <= |src| && |written| <= |header| + pos - HEADER_LEN
    && (|written| == |header| + pos - HEADER_LEN ==> written == header + src[HEADER_LEN..pos])
  }

  lemma CopyStarts(header: bytes, src: bytes, k: nat)
    requires |src| >= HEADER_LEN && k <= |header|
    ensures CopiedTo(header, src, HEADER_LEN, [] + header[..k])
    ensures [] + header == header + src[HEADER_LEN..HEADER_LEN]
  {
  }

  lemma CopyGrows(header: bytes, src: bytes, pos: nat, next: nat, written: bytes, k: nat)
    requires CopiedTo(header, src, pos, written) && pos <= next <= |src| && k <= next - pos
    ensures CopiedTo(header, src, next, written + src[pos..next][..k])
    ensures written == header + src[HEADER_LEN..pos] ==> written + src[pos..next] == header + src[HEADER_LEN..next]
  {
    assert src[HEADER_LEN..pos] + src[pos..next] == src[HEADER_LEN..next];
    assert src[pos..next][..next - pos] == src[pos..next];
  }

  /** One write to the temporary file, and the state it leaves. */
  method WriteTmp(disk: Disk, p: Path, data: bytes, ghost before: Files) returns (s: Step, ghost k: nat)
    requires Tmp(p) in disk.files && OnlyTmpDiffers(before, disk.files, p)
    modifies disk
    ensures OnlyTmpDiffers(before, disk.files, p) && Tmp(p) in disk.files && k <= |data|
    ensures disk.files[Tmp(p)] == old(disk.files)[Tmp(p)] + data[..k]
    ensures disk.Faultless() ==> s == Done && disk.files[Tmp(p)] == old(disk.files)[Tmp(p)] + data
  {
    hide OnlyTmpDiffers;
    s := disk.Append(Tmp(p), data);
    k :| k <= |data| && disk.files == old(disk.files)[Tmp(p) := old(disk.files)[Tmp(p)] + data[..k]];
    TmpWritten(before, old(disk.files), p, old(disk.files)[Tmp(p)] + data[..k]);
  }

  /** The copy: the new header, then the old body a chunk at a time. */
  method WriteCopy(disk: Disk, p: Path, header: bytes) returns (s: Step)
    requires p in disk.files && |disk.files[p]| >= HEADER_LEN
    modifies disk
    ensures OnlyTmpDiffers(old(disk.files), disk.files, p)
    ensures s == Done ==> Tmp(p) in disk.files && CopiedTo(header, old(disk.files)[p], |old(disk.files)[p]|,
                                                           disk.files[Tmp(p)])
    ensures disk.Faultless() ==> s == Done && disk.files[Tmp(p)] == header + old(disk.files)[p][HEADER_LEN..]
  {
    var src := disk.files[p];
    var tmp := Tmp(p);
    ghost var before := disk.files;
    TmpWritten(before, before, p, []);
    hide OnlyTmpDiffers, CopiedTo, Disk.Faultless;
    s := disk.Create(tmp);
    if s != Done { return; }
    ghost var k: nat;
    s, k := WriteTmp(disk, p, header, before);
    if s != Done { return; }
    CopyStarts(header, src, k);
    var pos := HEADER_LEN;
    while pos < |src|
      invariant HEADER_LEN <= pos <= |src|
      invariant OnlyTmpDiffers(before, disk.files, p) && tmp in disk.files
      invariant CopiedTo(header, src, pos, disk.files[tmp])
      invariant disk.Faultless() ==> disk.files[tmp] == header + src[HEADER_LEN..pos]
    {
      var next := Min(pos + COPY_CHUNK, |src|);
      CopyGrows(header, src, pos, next, disk.files[tmp], 0);
      ghost var was := disk.files[tmp];
      s, k := WriteTmp(disk, p, src[pos..next], before);
      if s != Done { return; }
      CopyGrows(header, src, pos, next, was, k);
      pos := next;
    }
    assert src[HEADER_LEN..pos] == src[HEADER_LEN..];
    s := Done;
  }

  lemma CopyIsRewrapped(c: Crypto, old': bytes, new': bytes, nonce: bytes, file: bytes, copy: bytes)
    requires Ideal(c) && |nonce| == NONCE_LEN && Under(c, old', file)
    ensures |file| >= HEADER_LEN && |NewHeader(c, old', new', nonce, file)| == HEADER_LEN
    ensures UnwrapDek(c, new', NewHeader(c, old', new', nonce, file)) == UnwrapDek(c, old', HeaderOf(file))
    ensures copy == NewHeader(c, old', new', nonce, file) + file[HEADER_LEN..] ==>
              && Rewrapped(c, old', new', file, copy) && HeaderOf(copy) == NewHeader(c, old', new', nonce, file)
  {
    DataKeysAreFullLength(c, old', file);
    var dek := UnwrapDek(c, old', HeaderOf(file)).dek;
    HeaderOpens(c, new', dek, nonce);
    var header := HeaderForDek(c, new', dek, nonce);
    if copy == header + file[HEADER_LEN..] {
      assert HeaderOf(copy) == header;
      assert copy[HEADER_LEN..] == file[HEADER_LEN..];
    }
  }

  lemma OnlyTmpIsContained(c: Crypto, old': bytes, new': bytes, before: Files, after: Files, p: Path)
    requires OnlyTmpDiffers(before, after, p)
    ensures Contained(c, old', new', before, after, p)
    ensures p in before ==> p in after && after[p] == before[p]
  {
    hide Rewrapped, Under;
  }

  lemma ReplacedIsContained(c: Crypto, old': bytes, new': bytes, before: Files, mid: Files, p: Path)
    requires OnlyTmpDiffers(before, mid, p) && p in before && Tmp(p) in mid
    requires !Under(c, new', before[p]) && Rewrapped(c, old', new', before[p], mid[Tmp(p)])
    ensures var after := mid[p := mid[Tmp(p)]] - {Tmp(p)};
            && Contained(c, old', new', before, after, p)
            && p in after && Rewrapped(c, old', new', before[p], after[p])
            && after == before[p := mid[Tmp(p)]] - {Tmp(p)}
  {
    hide Rewrapped, Under;
  }

  lemma DecidedToRekey(c: Crypto, old': bytes, new': bytes, nonce: bytes, files: Files, p: Path)
    requires Decide(c, old', new', nonce, files, p) == Rekeyed
    ensures p in files && Under(c, old', files[p]) && !Under(c, new', files[p])
    ensures FilesAfter(c, old', new', nonce, files, p) ==
            files[p := NewHeader(c, old', new', nonce, files[p]) + files[p][HEADER_LEN..]] - {Tmp(p)}
  {
  }

  /** Write the copy, verify what reached the disk, and only then replace the original. */
  method ReplaceWithCopy(disk: Disk, c: Crypto, old': bytes, new': bytes, nonce: bytes, p: Path) returns (s: Step)
    requires Ideal(c) && |nonce| == NONCE_LEN
    requires Decide(c, old', new', nonce, disk.files, p) == Rekeyed
    modifies disk
    ensures Contained(c, old', new', old(disk.files), disk.files, p)
    ensures s == IoError ==> OnlyTmpDiffers(old(disk.files), disk.files, p)
    ensures s == Done ==> p in disk.files && Rewrapped(c, old', new', old(disk.files)[p], disk.files[p])
    ensures disk.Faultless() ==> s == Done && disk.files == FilesAfter(c, old', new', nonce, old(disk.files), p)
  {
    DecidedToRekey(c, old', new', nonce, disk.files, p);
    hide NewHeader, UnwrapDek, HeaderOf, Contained, Rewrapped, OnlyTmpDiffers, FilesAfter, Disk.Faultless, Ideal;
    ghost var before := disk.files;
    var file, tmp := disk.files[p], Tmp(p);
    var header := NewHeader(c, old', new', nonce, file);
    CopyIsRewrapped(c, old', new', nonce, file, header + file[HEADER_LEN..]);
    s := WriteCopy(disk, p, header);
    OnlyTmpIsContained(c, old', new', before, disk.files, p);
    if s != Done { return; }
    s := disk.Touch();
    if s != Done { return; }
    var written := disk.files[tmp];
    if UnwrapDek(c, new', HeaderOf(written)) != UnwrapDek(c, old', HeaderOf(file)) || |written| != |file| {
      return IoError;
    }
    assert written == header + file[HEADER_LEN..];
    ReplacedIsContained(c, old', new', before, disk.files, p);
    s := disk.Replace(tmp, p);
  }

  lemma Untouched(c: Crypto, old': bytes, new': bytes, files: Files, p: Path)
    ensures OnlyTmpDiffers(files, files, p) && Contained(c, old', new', files, files, p)
  {
  }

  lemma TmpRemoved(c: Crypto, old': bytes, new': bytes, before: Files, after: Files, p: Path)
    requires OnlyTmpDiffers(before, after, p)
    ensures OnlyTmpDiffers(before, after - {Tmp(p)}, p) && Contained(c, old', new', before, after - {Tmp(p)}, p)
  {
    hide Rewrapped, Under;
  }

  /** `rekey_file`. Its `except BaseException` clean-up runs on errors, not on a crash. */
  method RekeyFile(disk: Disk, c: Crypto, old': bytes, new': bytes, nonce: bytes, p: Path, apply: bool)
    returns (status: Status)
    requires Ideal(c) && |nonce| == NONCE_LEN
    modifies disk
    ensures Contained(c, old', new', old(disk.files), disk.files, p)
    ensures status in {Already, Plaintext, Failed} ==> OnlyTmpDiffers(old(disk.files), disk.files, p)
    ensures status in {Already, Plaintext} || !apply ==> disk.files == old(disk.files)
    ensures status in {Rekeyed, Already, Plaintext} ==> p in old(disk.files) && p in disk.files
    ensures status == Rekeyed && apply ==> Rewrapped(c, old', new', old(disk.files)[p], disk.files[p])
    ensures status == Already ==> Under(c, new', old(disk.files)[p])
    ensures disk.Faultless() ==> status == Decide(c, old', new', nonce, old(disk.files), p)
    ensures disk.Faultless() && apply ==>
              disk.files == FilesAfter(c, old', new', nonce, old(disk.files), p)
  {
    Untouched(c, old', new', disk.files, p);
    hide Contained, OnlyTmpDiffers, Disk.Faultless, Ideal, Drawn;
    var s := disk.Touch();
    if s == Crash { return Crashed; }
    if s == IoError || p !in disk.files { return Failed; }
    var file := disk.files[p];
    var header := HeaderOf(file);
    if !(MAGIC <= header) { return Plaintext; }
    if UnwrapDek(c, new', header).Dek? { return Already; }
    var unwrapped := UnwrapDek(c, old', header);
    if unwrapped.Refused? { return Failed; }
    var newHeader := NewHeader(c, old', new', nonce, file);
    if UnwrapDek(c, new', newHeader) != unwrapped { return Failed; }
    if !apply { return Rekeyed; }
    hide NewHeader, UnwrapDek, HeaderOf, Rewrapped;
    s := ReplaceWithCopy(disk, c, old', new', nonce, p);
    if s == IoError {
      TmpRemoved(c, old', new', old(disk.files), disk.files, p);
      s := disk.Unlink(Tmp(p));
      return if s == Crash then Crashed else Failed;
    }
    return if s == Crash then Crashed else Rekeyed;
  }

  // --- the whole run -----------------------------------------------------------------------------

  datatype Outcome = Outcome(rekeyed: seq<Path>, already: seq<Path>, plaintext: seq<Path>, failed: seq<Path>)

  datatype Run = RunRefused | Finished(out: Outcome) | Stopped

  /** Every original is still there, as it was or re-wrapped. */
  ghost predicate Intact(c: Crypto, old': bytes, new': bytes, originals: Files, files: Files) {
    forall q :: q in originals ==>
      && q in files
      && (files[q] == originals[q]
          || (!Under(c, new', originals[q]) && Rewrapped(c, old', new', originals[q], files[q])))
  }

  /** The temporary names of a run. */
  function Temporaries(paths: seq<Path>): set<Path> { set i | 0 <= i < |paths| :: Tmp(paths[i]) }

  /** The originals whose names are no target's temporary name: what a run answers for. */
  function Spared(originals: Files, paths: seq<Path>): Files { originals - Temporaries(paths) }

  lemma StaysIntact(c: Crypto, old': bytes, new': bytes, originals: Files, before: Files, after: Files, p: Path)
    requires Intact(c, old', new', originals, before) && Contained(c, old', new', before, after, p)
    ensures Intact(c, old', new', originals - {Tmp(p)}, after)
  {
    hide Rewrapped, Under;
    forall q | q in originals - {Tmp(p)}
      ensures q in after && (after[q] == originals[q]
        || (!Under(c, new', originals[q]) && Rewrapped(c, old', new', originals[q], after[q])))
    {
      if q == p && after[p] != before[p] {
        if before[p] != originals[p] { RewrappedIsUnder(c, old', new', originals[p], before[p]); }
      }
    }
  }

  lemma FewerIntact(c: Crypto, old': bytes, new': bytes, originals: Files, fewer: Files, files: Files)
    requires Intact(c, old', new', originals, files)
    requires forall q :: q in fewer ==> q in originals && fewer[q] == originals[q]
    ensures Intact(c, old', new', fewer, files)
  {
    hide Rewrapped, Under;
  }

  lemma SparedByLast(originals: Files, paths: seq<Path>)
    requires |paths| > 0
    ensures Spared(originals, paths) == Spared(originals, paths[..|paths| - 1]) - {Tmp(paths[|paths| - 1])}
  {
    var n := |paths| - 1;
    assert Temporaries(paths) == Temporaries(paths[..n]) + {Tmp(paths[n])} by {
      assert Tmp(paths[n]) in Temporaries(paths);
      forall t | t in Temporaries(paths[..n]) ensures t in Temporaries(paths) {
        var i :| 0 <= i < n && Tmp(paths[..n][i]) == t;
        assert Tmp(paths[i]) == t;
      }
      forall t | t in Temporaries(paths) ensures t in Temporaries(paths[..n]) || t == Tmp(paths[n]) {
        var i :| 0 <= i < |paths| && Tmp(paths[i]) == t;
        assert i < n ==> Tmp(paths[..n][i]) == t;
      }
    }
  }

  lemma RewrappedIsUnder(c: Crypto, old': bytes, new': bytes, a: bytes, b: bytes)
    requires Rewrapped(c, old', new', a, b)
    ensures Under(c, new', b) && Under(c, old', a)
  {
  }

  /** The decisions of a run with nothing going wrong, one file after another. */
  function RunAfter(c: Crypto, old': bytes, new': bytes, draw: Draw, files: Files, paths: seq<Path>): Files {
    if |paths| == 0 then files
    else
      var front := RunAfter(c, old', new', draw, files, paths[..|paths| - 1]);
      FilesAfter(c, old', new', draw(|paths| - 1), front, paths[|paths| - 1])
  }

  /** One target of a run, seen from the originals. */
  method RekeyTarget(disk: Disk, c: Crypto, old': bytes, new': bytes, nonce: bytes, p: Path, apply: bool,
                     ghost originals: Files) returns (status: Status)
    requires Ideal(c) && |nonce| == NONCE_LEN
    requires Intact(c, old', new', originals, disk.files)
    modifies disk
    ensures Intact(c, old', new', originals - {Tmp(p)}, disk.files)
    ensures !apply ==> disk.files == old(disk.files)
    ensures disk.Faultless() && apply ==> disk.files == FilesAfter(c, old', new', nonce, old(disk.files), p)
    ensures disk.Faultless() ==> status != Crashed
  {
    hide Rewrapped, Under, Decide, FilesAfter, UnwrapDek, HeaderOf, Contained, OnlyTmpDiffers, Intact;
    ghost var before := disk.files;
    NeverDecidedToCrash(c, old', new', nonce, before, p);
    status := RekeyFile(disk, c, old', new', nonce, p, apply);
    StaysIntact(c, old', new', originals, before, disk.files, p);
  }

  lemma RunAfterNone(c: Crypto, old': bytes, new': bytes, draw: Draw, files: Files)
    ensures RunAfter(c, old', new', draw, files, []) == files
  {
  }

  lemma RunAfterOne(c: Crypto, old': bytes, new': bytes, draw: Draw, files: Files, paths: seq<Path>, i: nat)
    requires i < |paths|
    ensures RunAfter(c, old', new', draw, files, paths[..i + 1]) ==
            FilesAfter(c, old', new', draw(i), RunAfter(c, old', new', draw, files, paths[..i]), paths[i])
  {
    hide FilesAfter;
    assert paths[..i + 1][..i] == paths[..i];
  }

  lemma TemporariesOf(originals: Files, paths: seq<Path>)
    ensures forall i :: 0 <= i < |paths| ==> Tmp(paths[i]) !in Spared(originals, paths)
  {
    forall i | 0 <= i < |paths| ensures Tmp(paths[i]) in Temporaries(paths) {}
  }

  /**
   * `rekey_all`: whatever fails and wherever it stops, every original whose name is not a target's
   * temporary name is intact; undisturbed, it does exactly the per-file decisions in turn.
   */
  method RekeyAll(disk: Disk, c: Crypto, old': bytes, new': bytes, draw: Draw, paths: seq<Path>, live: bool,
                  apply: bool, ghost originals: Files) returns (r: Run)
    requires Ideal(c) && Drawn(draw)
    requires Intact(c, old', new', originals, disk.files)
    modifies disk
    ensures Intact(c, old', new', Spared(originals, paths), disk.files)
    ensures r.RunRefused? <==> c.kekId(old') == c.kekId(new') || |paths| == 0 || live
    ensures r.RunRefused? || !apply ==> disk.files == old(disk.files)
    ensures r.Finished? ==>
              |r.out.rekeyed| + |r.out.already| + |r.out.plaintext| + |r.out.failed| == |paths|
    ensures disk.Faultless() && r.Finished? && apply ==>
              disk.files == RunAfter(c, old', new', draw, old(disk.files), paths)
    ensures disk.Faultless() ==> !r.Stopped?
  {
    FewerIntact(c, old', new', originals, Spared(originals, paths), disk.files);
    if c.kekId(old') == c.kekId(new') || |paths| == 0 || live { return RunRefused; }
    TemporariesOf(originals, paths);
    hide FilesAfter, Intact, Spared, RunAfter, Disk.Faultless, Ideal;
    RunAfterNone(c, old', new', draw, disk.files);
    ghost var spared := Spared(originals, paths);
    var out := Outcome([], [], [], []);
    assert paths[..0] == [];
    for i := 0 to |paths|
      invariant Intact(c, old', new', spared, disk.files)
      invariant !apply ==> disk.files == old(disk.files)
      invariant |out.rekeyed| + |out.already| + |out.plaintext| + |out.failed| == i
      invariant disk.Faultless() && apply ==> disk.files == RunAfter(c, old', new', draw, old(disk.files), paths[..i])
    {
      var p := paths[i];
      RunAfterOne(c, old', new', draw, old(disk.files), paths, i);
      var status := RekeyTarget(disk, c, old', new', draw(i), p, apply, spared);
      assert spared - {Tmp(p)} == spared;
      match status
      case Rekeyed => out := out.(rekeyed := out.rekeyed + [p]);
      case Already => out := out.(already := out.already + [p]);
      case Plaintext => out := out.(plaintext := out.plaintext + [p]);
      case Failed => out := out.(failed := out.failed + [p]);
      case Crashed => return Stopped;
    }
    assert paths[..|paths|] == paths;
    return Finished(out);
  }

  lemma NeverDecidedToCrash(c: Crypto, old': bytes, new': bytes, nonce: bytes, files: Files, p: Path)
    ensures Decide(c, old', new', nonce, files, p) != Crashed
  {
  }

  // --- finishing what was interrupted ------------------------------------------------------------

  /** An original a rotation can move: under the new key already, or under the old one. */
  predicate Movable(c: Crypto, old': bytes, new': bytes, file: bytes) { Under(c, new', file) || Under(c, old', file) }

  lemma FilesAfterContained(c: Crypto, old': bytes, new': bytes, nonce: bytes, files: Files, p: Path)
    requires Ideal(c) && |nonce| == NONCE_LEN
    ensures Contained(c, old', new', files, FilesAfter(c, old', new', nonce, files, p), p)
    ensures p in files && Movable(c, old', new', files[p]) ==>
              && p in FilesAfter(c, old', new', nonce, files, p)
              && Under(c, new', FilesAfter(c, old', new', nonce, files, p)[p])
  {
    if p in files && Movable(c, old', new', files[p]) && !Under(c, new', files[p]) {
      CopyIsRewrapped(c, old', new', nonce, files[p],
                      NewHeader(c, old', new', nonce, files[p]) + files[p][HEADER_LEN..]);
    }
  }

  /** An undisturbed run over any targets puts every original among them that it spares under the new key. */
  lemma {:induction false} RunMovesTargets(c: Crypto, old': bytes, new': bytes, draw: Draw, originals: Files,
                                           files: Files, paths: seq<Path>)
    requires Ideal(c) && Drawn(draw) && Intact(c, old', new', originals, files)
    requires forall q :: q in originals ==> Movable(c, old', new', originals[q])
    ensures var after := RunAfter(c, old', new', draw, files, paths);
            && Intact(c, old', new', Spared(originals, paths), after)
            && forall q :: q in Spared(originals, paths) && q in paths ==> Under(c, new', after[q])
    decreases |paths|
  {
    hide Rewrapped, Under, Movable, FilesAfter, Spared;
    if |paths| == 0 {
      SparedByNone(originals);
    } else {
      var n := |paths| - 1;
      var front, p := paths[..n], paths[n];
      RunMovesTargets(c, old', new', draw, originals, files, front);
      SparedByLast(originals, paths);
      SparedAreOriginals(originals, front);
      var before := RunAfter(c, old', new', draw, files, front);
      var after := FilesAfter(c, old', new', draw(n), before, p);
      FilesAfterContained(c, old', new', draw(n), before, p);
      StaysIntact(c, old', new', Spared(originals, front), before, after, p);
      forall q | q in Spared(originals, paths) && q in paths
        ensures Under(c, new', after[q])
      {
        if q == p {
          IntactMovable(c, old', new', Spared(originals, front), before, p);
        } else {
          assert q in front;
          assert after[q] == before[q];
        }
      }
    }
  }

  lemma SparedByNone(originals: Files)
    ensures Spared(originals, []) == originals
  {
    assert Temporaries([]) == {};
  }

  lemma SparedAreOriginals(originals: Files, paths: seq<Path>)
    ensures forall q :: q in Spared(originals, paths) ==> q in originals && Spared(originals, paths)[q] == originals[q]
  {
  }

  lemma IntactMovable(c: Crypto, old': bytes, new': bytes, originals: Files, files: Files, p: Path)
    requires Intact(c, old', new', originals, files) && p in originals && Movable(c, old', new', originals[p])
    ensures p in files && Movable(c, old', new', files[p])
  {
  }

  /**
   * Resumption: from whatever state interrupted rotations left, one undisturbed run over the
   * targets leaves a movable original among them under the new key, opening to what it always
   * held, unless its name is a target's temporary name.
   */
  lemma RerunFinishes(c: Crypto, old': bytes, new': bytes, draw: Draw, originals: Files, files: Files,
                      paths: seq<Path>, q: Path)
    requires Ideal(c) && Drawn(draw) && Intact(c, old', new', originals, files)
    requires q in originals && q in paths && q !in Temporaries(paths) && Movable(c, old', new', originals[q])
    ensures var after := RunAfter(c, old', new', draw, files, paths);
            && q in after && |after[q]| == |originals[q]|
            && Under(c, new', after[q])
            && Open(c, new', after[q]) ==
               if Under(c, new', originals[q]) then Open(c, new', originals[q]) else Open(c, old', originals[q])
  {
    var only := map[q := originals[q]];
    FewerIntact(c, old', new', originals, only, files);
    RunMovesTargets(c, old', new', draw, only, files, paths);
    assert q in Spared(only, paths);
    var after := RunAfter(c, old', new', draw, files, paths);
    if after[q] != originals[q] {
      RewrappedOpens(c, old', new', originals[q], after[q]);
    }
  }

  /** At every moment of every run an intact original opens, under one key or the other, to what it held. */
  lemma IntactOpens(c: Crypto, old': bytes, new': bytes, originals: Files, files: Files, q: Path)
    requires Intact(c, old', new', originals, files) && q in originals && Movable(c, old', new', originals[q])
    ensures q in files && |files[q]| == |originals[q]|
    ensures if Under(c, new', originals[q]) then files[q] == originals[q]
            else files[q] == originals[q] || Open(c, new', files[q]) == Open(c, old', originals[q])
  {
    if files[q] != originals[q] {
      RewrappedOpens(c, old', new', originals[q], files[q]);
    }
  }

  /**
   * Why the targets' temporary names must be free: rotating `p` leaves another file on the
   * disk if and only if that file is not called `p` with ".partial" after it.
   */
  lemma OnlyTheTemporaryNameIsLost(c: Crypto, old': bytes, new': bytes, nonce: bytes, files: Files, p: Path, q: Path)
    requires Decide(c, old', new', nonce, files, p) == Rekeyed && q in files
    ensures q in FilesAfter(c, old', new', nonce, files, p) <==> q != p + ".partial"
  {
  }

  /** Two sealed keys called "k" and "k.partial": rotating the first destroys the second. */
  lemma PartialNameIsLost(c: Crypto, old': bytes, new': bytes, dek: bytes, nonce: bytes, body: bytes)
    requires Ideal(c) && c.kekId(old') != c.kekId(new') && |dek| == DEK_LEN && |nonce| == NONCE_LEN
    ensures var sealed := HeaderForDek(c, old', dek, nonce) + body;
            var files := map["k" := sealed, "k.partial" := sealed];
            && Under(c, old', files["k.partial"])
            && "k.partial" !in FilesAfter(c, old', new', nonce, files, "k")
  {
    var sealed := HeaderForDek(c, old', dek, nonce) + body;
    var files: Files := map["k" := sealed, "k.partial" := sealed];
    HeaderOpens(c, old', dek, nonce);
    assert HeaderOf(sealed) == HeaderForDek(c, old', dek, nonce);
    CopyIsRewrapped(c, old', new', nonce, sealed, sealed);
    assert MAGIC <= HeaderOf(sealed);
    assert Decide(c, old', new', nonce, files, "k") == Rekeyed;
    assert Tmp("k") == "k.partial";
  }
}
