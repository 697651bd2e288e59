/** The rotating audit file over storage on which every single operation may fail. Slot 0 is the
    primary file and slot i the backup with suffix .i. */
module Rotating {

  type Bytes = seq<bv8>

  /** A file as the writes that built it, so that a record split across files would show. */
  type File = seq<Bytes>

  type Slots = map<nat, File>

  datatype Io = Ok | NotExist | Failed

  datatype Error = NoError | ClosedPipe | TooLarge | Unavailable | ShortWrite

  function Size(f: File): nat {
    if |f| == 0 then 0 else Size(f[..|f| - 1]) + |f[|f| - 1]|
  }

  function Content(slots: Slots, i: nat): File {
    if i in slots then slots[i] else []
  }

  /** The n youngest files, read from the oldest backup down to the primary. */
  function ReadDown(slots: Slots, n: nat): File {
    if n == 0 then [] else Content(slots, n - 1) + ReadDown(slots, n - 1)
  }

  /** What an accepted write of n bytes of p adds to a file. */
  function Chunk(p: Bytes, n: nat): File
    requires n <= |p|
  {
    if n == 0 then [] else [p[..n]]
  }

  // ---------------------------------------------------------------- storage

  /** Storage whose operations succeed, or fail without effect. Only a failing open may leave
      the empty file it had just created. Nothing fails while the storage is healthy. */
  class Disk {
    var slots: Slots
    var healthy: bool

    constructor (s: Slots, h: bool)
      ensures slots == s && healthy == h
    {
      slots, healthy := s, h;
    }

    method Fails() returns (fails: bool)
      ensures healthy ==> !fails
    {
      var any: bool := *;
      fails := any && !healthy;
    }

    method Remove(i: nat) returns (r: Io)
      modifies this`slots
      ensures r == Ok ==> i in old(slots) && slots == old(slots) - {i}
      ensures r == NotExist ==> i !in slots && slots == old(slots)
      ensures r == Failed ==> !healthy && slots == old(slots)
    {
      var fails := Fails();
      if fails {
        return Failed;
      }
      if i !in slots {
        return NotExist;
      }
      slots := slots - {i};
      return Ok;
    }

    method Rename(from: nat, to: nat) returns (r: Io)
      modifies this`slots
      ensures r == Ok ==> from in old(slots) && slots == (old(slots) - {from})[to := old(slots)[from]]
      ensures r == NotExist ==> from !in slots && slots == old(slots)
      ensures r == Failed ==> !healthy && slots == old(slots)
    {
      var fails := Fails();
      if fails {
        return Failed;
      }
      if from !in slots {
        return NotExist;
      }
      slots := (slots - {from})[to := slots[from]];
      return Ok;
    }

    /** Opens the primary, creating it when it is missing, and empties it unless appending. */
    method Open(append: bool) returns (ok: bool)
      modifies this`slots
      ensures ok ==> slots == if append then Created(old(slots)) else old(slots)[0 := []]
      ensures !ok ==> !healthy && (slots == old(slots) || slots == Created(old(slots)))
    {
      var fails := Fails();
      if fails {
        return false;
      }
      slots := Created(slots);
      fails := Fails();
      if fails {
        return false;
      }
      if !append {
        slots := slots[0 := []];
      }
      return true;
    }

    method Stat() returns (ok: bool, size: nat)
      requires 0 in slots
      ensures ok ==> size == Size(slots[0])
      ensures !ok ==> !healthy
    {
      var fails := Fails();
      return !fails, Size(slots[0]);
    }

    method CloseHandle() returns (ok: bool)
      ensures !ok ==> !healthy
    {
      var fails := Fails();
      return !fails;
    }

    /** A write at the end of the primary; a failing one may accept a prefix. */
    method Append(p: Bytes) returns (n: nat)
      requires 0 in slots
      modifies this`slots
      ensures n <= |p| && (healthy ==> n == |p|)
      ensures slots == old(slots)[0 := old(slots)[0] + Chunk(p, n)]
    {
      n := |p|;
      var fails := Fails();
      if fails {
        n :| 0 <= n <= |p|;
      }
      slots := slots[0 := slots[0] + Chunk(p, n)];
    }
  }

  /** The slots with a primary, empty if there was none. */
  function Created(slots: Slots): Slots {
    if 0 in slots then slots else slots[0 := []]
  }

  // ---------------------------------------------------------------- rotation

  /** The slots after a rename into the free slot i; there may be nothing to rename. */
  function Renamed(slots: Slots, i: nat): Slots
    requires 0 < i
  {
    if i - 1 in slots then (slots - {i - 1})[i := slots[i - 1]] else slots
  }

  /** The slots when the shifting loop reaches index i; at the start nothing has moved. */
  function Shifted(slots: Slots, maxFiles: nat, i: nat): Slots
    requires i < maxFiles
    decreases maxFiles - i
  {
    if i == maxFiles - 1 then slots else Renamed(Shifted(slots, maxFiles, i + 1) - {i + 1}, i + 1)
  }

  /** The slot whose file has moved to slot j. */
  function CameFrom(maxFiles: nat, i: nat, j: nat): nat {
    if i < j < maxFiles && i < maxFiles - 1 then j - 1 else j
  }

  /** What shifting means, slot by slot: every file from slot i up has moved to the next slot, the
      oldest file is gone, slot i is free, and no other slot is touched. */
  lemma {:induction false} ShiftedAt(slots: Slots, maxFiles: nat, i: nat, j: nat)
    requires i < maxFiles
    ensures var shifted, k := Shifted(slots, maxFiles, i), CameFrom(maxFiles, i, j);
            if j == i < maxFiles - 1 then j !in shifted
            else (j in shifted <==> k in slots) && (k in slots ==> shifted[j] == slots[k])
    decreases maxFiles - i
  {
    if i < maxFiles - 1 {
      ShiftedAt(slots, maxFiles, i + 1, j);
      ShiftedAt(slots, maxFiles, i + 1, i);
    }
  }

  lemma ShiftedContent(slots: Slots, maxFiles: nat, i: nat, j: nat)
    requires i < maxFiles
    ensures Content(Shifted(slots, maxFiles, i), j)
         == if j == i < maxFiles - 1 then [] else Content(slots, CameFrom(maxFiles, i, j))
  {
    ShiftedAt(slots, maxFiles, i, j);
  }

  /** The state in which a rotation that starts from slots may break off. */
  ghost predicate BreaksOff(slots: Slots, maxFiles: nat, broken: Slots)
    requires 0 < maxFiles
  {
    || (exists i :: 0 <= i < maxFiles && broken == Shifted(slots, maxFiles, i))
    || (1 < maxFiles && broken == slots - {maxFiles - 1})
    || broken == Created(Shifted(slots, maxFiles, 0))
  }

  /** The slots after a rotation that went through. */
  function Rotated(slots: Slots, maxFiles: nat): Slots
    requires 0 < maxFiles
  {
    Shifted(slots, maxFiles, 0)[0 := []]
  }

  /** A turn may break off on either side of its remove. */
  lemma TurnBreaksOff(slots: Slots, maxFiles: nat, i: nat)
    requires 0 < i < maxFiles
    ensures BreaksOff(slots, maxFiles, Shifted(slots, maxFiles, i))
    ensures BreaksOff(slots, maxFiles, Shifted(slots, maxFiles, i) - {i})
  {
    if i < maxFiles - 1 {
      FreeSlot(slots, maxFiles, i);
    }
  }

  /** A rotation may break off before its first step and behind its last. */
  lemma NothingMoved(slots: Slots, maxFiles: nat)
    requires 0 < maxFiles
    ensures BreaksOff(slots, maxFiles, slots)
    ensures BreaksOff(slots, maxFiles, Shifted(slots, maxFiles, 0))
  {
    assert slots == Shifted(slots, maxFiles, maxFiles - 1);
  }

  lemma FreeSlot(slots: Slots, maxFiles: nat, i: nat)
    requires i < maxFiles - 1
    ensures Shifted(slots, maxFiles, i) - {i} == Shifted(slots, maxFiles, i)
  {
    ShiftedAt(slots, maxFiles, i, i);
  }

  lemma {:induction false} ReadAgree(a: Slots, b: Slots, n: nat)
    requires forall j :: 0 <= j < n ==> Content(a, j) == Content(b, j)
    ensures ReadDown(a, n) == ReadDown(b, n)
  {
    if n > 0 {
      ReadAgree(a, b, n - 1);
    }
  }

  lemma {:induction false} ReadShifted(slots: Slots, maxFiles: nat, i: nat, n: nat)
    requires i < maxFiles - 1 && i < n <= maxFiles
    ensures ReadDown(Shifted(slots, maxFiles, i), n) == ReadDown(slots, n - 1)
  {
    var shifted := Shifted(slots, maxFiles, i);
    if n == i + 1 {
      forall j | 0 <= j < i
        ensures Content(shifted, j) == Content(slots, j)
      {
        ShiftedContent(slots, maxFiles, i, j);
      }
      ReadAgree(shifted, slots, i);
      ShiftedContent(slots, maxFiles, i, i);
    } else {
      ReadShifted(slots, maxFiles, i, n - 1);
      ShiftedContent(slots, maxFiles, i, n - 1);
    }
  }

  lemma RemovedOldest(slots: Slots, maxFiles: nat)
    requires 0 < maxFiles
    ensures ReadDown(slots - {maxFiles - 1}, maxFiles) == ReadDown(slots, maxFiles - 1)
  {
    var removed := slots - {maxFiles - 1};
    ReadAgree(removed, slots, maxFiles - 1);
    assert Content(removed, maxFiles - 1) == [];
    assert [] + ReadDown(removed, maxFiles - 1) == ReadDown(removed, maxFiles - 1);
  }

  /** However a rotation ends, it loses nothing, or exactly the oldest file. */
  lemma BreaksOffLosesOldest(slots: Slots, maxFiles: nat, broken: Slots)
    requires 0 < maxFiles && BreaksOff(slots, maxFiles, broken)
    ensures || ReadDown(broken, maxFiles) == ReadDown(slots, maxFiles)
            || ReadDown(broken, maxFiles) == ReadDown(slots, maxFiles - 1)
  {
    if i :| 0 <= i < maxFiles && broken == Shifted(slots, maxFiles, i) {
      if i < maxFiles - 1 {
        ReadShifted(slots, maxFiles, i, maxFiles);
      }
    } else if 1 < maxFiles && broken == slots - {maxFiles - 1} {
      RemovedOldest(slots, maxFiles);
    } else {
      ReadAgree(broken, Shifted(slots, maxFiles, 0), maxFiles);
      if 0 < maxFiles - 1 {
        ReadShifted(slots, maxFiles, 0, maxFiles);
      }
    }
  }

  /** A rotation that goes through loses exactly the oldest file; with one file, the primary. */
  lemma RotatedLosesOldest(slots: Slots, maxFiles: nat)
    requires 0 < maxFiles
    ensures ReadDown(Rotated(slots, maxFiles), maxFiles) == ReadDown(slots, maxFiles - 1)
    ensures ReadDown(slots, maxFiles) == Content(slots, maxFiles - 1) + ReadDown(slots, maxFiles - 1)
  {
    if maxFiles > 1 {
      ReadAgree(Rotated(slots, maxFiles), Shifted(slots, maxFiles, 0), maxFiles);
      ReadShifted(slots, maxFiles, 0, maxFiles);
    } else {
      assert ReadDown(Rotated(slots, maxFiles), 1) == [] + ReadDown(Rotated(slots, maxFiles), 0);
    }
  }

  lemma {:induction false} ReadAppended(slots: Slots, chunk: File, n: nat)
    requires n > 0
    ensures ReadDown(Appended(slots, chunk), n) == ReadDown(slots, n) + chunk
  {
    if n > 1 {
      ReadAppended(slots, chunk, n - 1);
    }
  }

  // ---------------------------------------------------------------- the writer

  /** What is observable of the writer and its storage. accepted lists everything the files
      held at first and every chunk accepted since. */
  datatype State = State(slots: Slots, open: bool, size: nat, closed: bool, accepted: File)

  class RotatingFile {
    const disk: Disk
    const maxBytes: nat
    const maxFiles: nat
    var size: nat
    var open: bool
    var closed: bool
    ghost var accepted: File

    ghost function Abs(): State
      reads this, disk
    {
      State(disk.slots, open, size, closed, accepted)
    }

    ghost predicate Valid()
      reads this, disk
    {
      0 < maxFiles && Inv(Abs(), maxFiles)
    }

    /** The writer right after its first open succeeded. */
    constructor (d: Disk, bytes: nat, files: nat)
      requires 0 < files && 0 in d.slots
      ensures disk == d && maxBytes == bytes && maxFiles == files
      ensures Valid() && accepted == ReadDown(d.slots, files) && open && !closed
    {
      disk, maxBytes, maxFiles := d, bytes, files;
      size, open, closed := Size(d.slots[0]), true, false;
      accepted := ReadDown(d.slots, files);
    }

    method ReopenLocked() returns (ok: bool)
      requires !open
      modifies this`size, this`open, disk`slots
      ensures ok ==> disk.slots == Created(old(disk.slots)) && open && size == Size(disk.slots[0])
      ensures !ok ==> !disk.healthy && !open && size == old(size)
      ensures !ok ==> disk.slots == old(disk.slots) || disk.slots == Created(old(disk.slots))
    {
      ok := disk.Open(true);
      if !ok {
        return;
      }
      var bytes;
      ok, bytes := disk.Stat();
      if ok {
        open, size := true, bytes;
      }
    }

    /** One turn of the shifting loop: frees slot i, then moves slot i - 1 into it. */
    method ShiftInto(i: nat) returns (ok: bool)
      requires 0 < i
      modifies disk`slots
      ensures ok ==> disk.slots == Renamed(old(disk.slots) - {i}, i)
      ensures !ok ==> !disk.healthy && disk.slots in {old(disk.slots), old(disk.slots) - {i}}
    {
      var r := disk.Remove(i);
      if r == Failed {
        return false;
      }
      assert disk.slots == old(disk.slots) - {i};
      r := disk.Rename(i - 1, i);
      return r != Failed;
    }

    /** The same turn, seen from the slots was with which the rotation began. */
    method ShiftTurn(i: nat, ghost was: Slots) returns (ok: bool)
      requires 0 < i < maxFiles && disk.slots == Shifted(was, maxFiles, i)
      modifies disk`slots
      ensures ok ==> disk.slots == Shifted(was, maxFiles, i - 1)
      ensures !ok ==> !disk.healthy && BreaksOff(was, maxFiles, disk.slots)
    {
      TurnBreaksOff(was, maxFiles, i);
      ok := ShiftInto(i);
    }

    /** The shifting loop. */
    method ShiftAll() returns (ok: bool)
      requires 0 < maxFiles
      modifies disk`slots
      ensures ok ==> disk.slots == Shifted(old(disk.slots), maxFiles, 0)
      ensures !ok ==> !disk.healthy && BreaksOff(old(disk.slots), maxFiles, disk.slots)
    {
      ghost var was := disk.slots;
      var i := maxFiles - 1;
      ok := true;
      while i >= 1
        invariant 0 <= i < maxFiles
        invariant disk.slots == Shifted(was, maxFiles, i)
      {
        ok := ShiftTurn(i, was);
        if !ok {
          return;
        }
        i := i - 1;
      }
    }

    method RotateLocked() returns (ok: bool)
      requires open && 0 < maxFiles
      modifies this`size, this`open, disk`slots
      ensures ok ==> open && size == 0 && disk.slots == Rotated(old(disk.slots), maxFiles)
      ensures !ok ==> !disk.healthy && !open && size == old(size) && BreaksOff(old(disk.slots), maxFiles, disk.slots)
    {
      ok := disk.CloseHandle();
      open := false;
      NothingMoved(disk.slots, maxFiles);
      if !ok {
        return;
      }
      ok := ShiftAll();
      if !ok {
        return;
      }
      ok := disk.Open(false);
      if ok {
        open, size := true, 0;
      }
    }

    /** The part of Write before the write itself: a file to write to, with room for p. */
    method MakeReady(p: Bytes) returns (ok: bool)
      requires Valid() && !closed && |p| <= maxBytes
      modifies this`size, this`open, disk`slots
      ensures ok ==> open && disk.slots == Target(old(Abs()), maxBytes, maxFiles, p) && 0 in disk.slots
      ensures ok ==> size == Size(disk.slots[0])
      ensures !ok ==> !disk.healthy
      ensures !ok ==> ReopenFails(old(Abs()), Abs()) || RotationFails(old(Abs()), Abs(), maxBytes, maxFiles, p)
    {
      ok := true;
      if !open {
        ok := ReopenLocked();
        if !ok {
          return;
        }
      }
      assert (disk.slots, size) == Base(old(Abs()));
      if size + |p| > maxBytes {
        ok := RotateLocked();
        if ok {
          EmptyPrimary(disk.slots);
        }
      }
    }

    /** The write itself. */
    method AppendLocked(p: Bytes) returns (n: nat, err: Error)
      requires open && 0 in disk.slots
      modifies this`size, this`accepted, disk`slots
      ensures n <= |p| && err == (if n == |p| then NoError else ShortWrite) && (disk.healthy ==> n == |p|)
      ensures Abs() == State(Appended(old(disk.slots), Chunk(p, n)), true, old(size) + n, closed,
                             old(accepted) + Chunk(p, n))
    {
      n := disk.Append(p);
      size := size + n;
      accepted := accepted + Chunk(p, n);
      err := if n == |p| then NoError else ShortWrite;
    }

    /** Write with the mutex held. */
    method WriteLocked(p: Bytes) returns (n: nat, err: Error)
      requires Valid()
      modifies this, disk`slots
      ensures n <= |p| && WriteStep(old(Abs()), Abs(), maxBytes, maxFiles, p, n, err)
      ensures disk.healthy ==> err != Unavailable && err != ShortWrite
      ensures Valid()
    {
      ghost var s := Abs();
      if closed {
        return 0, ClosedPipe;
      }
      if |p| > maxBytes {
        return 0, TooLarge;
      }
      var ok := MakeReady(p);
      if !ok {
        WriteKeepsInv(s, Abs(), maxBytes, maxFiles, p, 0, Unavailable);
        return 0, Unavailable;
      }
      n, err := AppendLocked(p);
      WriteKeepsInv(s, Abs(), maxBytes, maxFiles, p, n, err);
    }

    /** Every refusal and every short write has its own error. */
    method Write(p: Bytes) returns (n: nat, err: Error)
      requires Valid()
      modifies this, disk`slots
      ensures n <= |p| && (err == ClosedPipe <==> old(closed))
      ensures err == TooLarge <==> !old(closed) && |p| > maxBytes
      ensures err == NoError ==> !old(closed) && n == |p| <= maxBytes
      ensures n < |p| ==> err != NoError
      ensures err != NoError && err != ShortWrite ==> n == 0
      ensures err == ShortWrite ==> n < |p|
      ensures err == Unavailable || err == ShortWrite ==> !disk.healthy
      ensures disk.healthy && !old(closed) && |p| <= maxBytes ==> err == NoError && n == |p|
      ensures accepted == old(accepted) + if n == 0 then [] else [p[..n]]
      ensures WriteStep(old(Abs()), Abs(), maxBytes, maxFiles, p, n, err)
      ensures Valid()
    {
      ghost var s := Abs();
      n, err := WriteLocked(p);
      WriteErrors(s, Abs(), maxBytes, maxFiles, p, n, err);
    }

    /** Later writes cannot reopen the file, whether or not the close itself succeeded. */
    method Close() returns (ok: bool)
      requires Valid()
      modifies this`open, this`closed
      ensures Abs() == old(Abs()).(open := false, closed := true)
      ensures Valid()
    {
      closed, ok := true, true;
      if open {
        ok := disk.CloseHandle();
        open := false;
      }
    }
  }

  lemma EmptyPrimary(slots: Slots)
    ensures 0 in slots && slots[0] == [] ==> Size(slots[0]) == 0
  {
  }

  /** Opens the audit file; a limit that is not positive selects the default. */
  method OpenRotating(disk: Disk, maxBytes: int, maxFiles: int) returns (r: RotatingFile?)
    modifies disk`slots
    ensures disk.healthy ==> r != null
    ensures r == null ==> disk.slots == old(disk.slots) || disk.slots == Created(old(disk.slots))
    ensures r != null ==>
              && fresh(r) && r.Valid() && r.disk == disk && r.open && !r.closed
              && r.maxBytes == (if maxBytes <= 0 then 10485760 else maxBytes)
              && r.maxFiles == (if maxFiles <= 0 then 3 else maxFiles)
              && disk.slots == Created(old(disk.slots))
              && r.accepted == ReadDown(old(disk.slots), r.maxFiles)
  {
    var bytes := if maxBytes <= 0 then 10485760 else maxBytes;
    var files := if maxFiles <= 0 then 3 else maxFiles;
    ghost var was := disk.slots;
    var ok := disk.Open(true);
    if !ok {
      return null;
    }
    var size;
    ok, size := disk.Stat();
    if !ok {
      return null;
    }
    ReadAgree(disk.slots, was, files);
    r := new RotatingFile(disk, bytes, files);
  }

  // ---------------------------------------------------------------- steps and runs

  ghost predicate IsSuffix(a: File, b: File) {
    |a| <= |b| && a == b[|b| - |a|..]
  }

  ghost predicate Inv(s: State, maxFiles: nat) {
    && (s.open ==> 0 in s.slots && s.size == Size(s.slots[0]) && !s.closed)
    && IsSuffix(ReadDown(s.slots, maxFiles), s.accepted)
  }

  /** The slots and the size that the size check sees. */
  function Base(s: State): (Slots, nat) {
    if s.open then (s.slots, s.size) else (Created(s.slots), Size(Created(s.slots)[0]))
  }

  /** The reopen failed: the writer stays without a file, at most with an empty primary made. */
  ghost predicate ReopenFails(s: State, t: State) {
    !s.open && t.slots in {s.slots, Created(s.slots)} && t == s.(slots := t.slots)
  }

  /** The rotation broke off: the writer is left without a file. */
  ghost predicate RotationFails(s: State, t: State, maxBytes: nat, maxFiles: nat, p: Bytes)
    requires 0 < maxFiles
  {
    var (base, size) := Base(s);
    && size + |p| > maxBytes
    && BreaksOff(base, maxFiles, t.slots)
    && t == s.(slots := t.slots, open := false, size := size)
  }

  /** The slots that an accepted write appends to. */
  function Target(s: State, maxBytes: nat, maxFiles: nat, p: Bytes): Slots
    requires 0 < maxFiles
  {
    var (base, size) := Base(s);
    if size + |p| > maxBytes then Rotated(base, maxFiles) else base
  }

  /** One write, with every way in which storage may fail it. */
  ghost predicate WriteStep(s: State, t: State, maxBytes: nat, maxFiles: nat, p: Bytes, n: nat, err: Error)
    requires 0 < maxFiles && n <= |p|
  {
    if s.closed then err == ClosedPipe && n == 0 && t == s
    else if |p| > maxBytes then err == TooLarge && n == 0 && t == s
    else if err == Unavailable then
      n == 0 && (ReopenFails(s, t) || RotationFails(s, t, maxBytes, maxFiles, p))
    else
      var target := Target(s, maxBytes, maxFiles, p);
      && err == (if n == |p| then NoError else ShortWrite)
      && t == State(Appended(target, Chunk(p, n)), true, Size(Content(target, 0)) + n, false, s.accepted + Chunk(p, n))
  }

  /** Which error means what: each refusal has its own, and no error means that all of the record,
      which then fits, has been accepted. */
  lemma WriteErrors(s: State, t: State, maxBytes: nat, maxFiles: nat, p: Bytes, n: nat, err: Error)
    requires 0 < maxFiles && n <= |p| && WriteStep(s, t, maxBytes, maxFiles, p, n, err)
    ensures err == ClosedPipe <==> s.closed
    ensures err == TooLarge <==> !s.closed && |p| > maxBytes
    ensures err == NoError ==> !s.closed && n == |p| <= maxBytes
    ensures n < |p| ==> err != NoError
    ensures err != NoError && err != ShortWrite ==> n == 0
    ensures err == ShortWrite ==> n < |p|
    ensures t.accepted == s.accepted + if n == 0 then [] else [p[..n]]
  {
  }

  function Appended(slots: Slots, chunk: File): Slots {
    slots[0 := Content(slots, 0) + chunk]
  }

  /** One write, whatever fails: the record is appended or not, and nothing else happens to the
      retained chunks except that the oldest file may go, and only when the record did not fit. */
  lemma WriteLosesOldestOnly(s: State, t: State, maxBytes: nat, maxFiles: nat, p: Bytes, n: nat, err: Error)
    requires 0 < maxFiles && n <= |p| && Inv(s, maxFiles) && WriteStep(s, t, maxBytes, maxFiles, p, n, err)
    ensures t.accepted == s.accepted + Chunk(p, n)
    ensures var kept := ReadDown(s.slots, maxFiles - 1);
            || ReadDown(t.slots, maxFiles) == ReadDown(s.slots, maxFiles) + Chunk(p, n)
            || (ReadDown(t.slots, maxFiles) == kept + Chunk(p, n) && Base(s).1 + |p| > maxBytes)
    ensures ReadDown(s.slots, maxFiles) == Content(s.slots, maxFiles - 1) + ReadDown(s.slots, maxFiles - 1)
  {
    var (base, size) := Base(s);
    ReadAgree(base, s.slots, maxFiles);
    ReadAgree(base, s.slots, maxFiles - 1);
    if s.closed || |p| > maxBytes {
    } else if err == Unavailable {
      if !ReopenFails(s, t) {
        BreaksOffLosesOldest(base, maxFiles, t.slots);
      }
    } else {
      RotatedLosesOldest(base, maxFiles);
      ReadAppended(Target(s, maxBytes, maxFiles, p), Chunk(p, n), maxFiles);
    }
  }

  /** With or without the oldest part, the rest and a new chunk are a suffix once the chunk is accepted. */
  lemma OldestLostIsSuffix(all: File, kept: File, oldest: File, accepted: File, chunk: File)
    requires all == oldest + kept && IsSuffix(all, accepted)
    ensures IsSuffix(all + chunk, accepted + chunk) && IsSuffix(kept + chunk, accepted + chunk)
  {
  }

  lemma WriteKeepsInv(s: State, t: State, maxBytes: nat, maxFiles: nat, p: Bytes, n: nat, err: Error)
    requires 0 < maxFiles && n <= |p| && Inv(s, maxFiles) && WriteStep(s, t, maxBytes, maxFiles, p, n, err)
    ensures Inv(t, maxFiles)
  {
    WriteLosesOldestOnly(s, t, maxBytes, maxFiles, p, n, err);
    OldestLostIsSuffix(ReadDown(s.slots, maxFiles), ReadDown(s.slots, maxFiles - 1), Content(s.slots, maxFiles - 1),
                       s.accepted, Chunk(p, n));
    SizeAppend(Content(Target(s, maxBytes, maxFiles, p), 0), Chunk(p, n));
  }

  /** Backups beyond the file limit, from an earlier and larger one, say, are never touched. */
  lemma WriteKeepsHighSlots(
      s: State, t: State, maxBytes: nat, maxFiles: nat, p: Bytes, n: nat, err: Error, j: nat)
    requires 0 < maxFiles <= j && n <= |p| && WriteStep(s, t, maxBytes, maxFiles, p, n, err)
    ensures j in t.slots <==> j in s.slots
    ensures j in s.slots ==> t.slots[j] == s.slots[j]
  {
    var (base, _) := Base(s);
    forall i | 0 <= i < maxFiles
      ensures var shifted := Shifted(base, maxFiles, i);
              (j in shifted <==> j in base) && (j in base ==> shifted[j] == base[j])
    {
      ShiftedAt(base, maxFiles, i, j);
    }
  }

  lemma SizeAppend(f: File, chunk: File)
    requires |chunk| <= 1
    ensures Size(f + chunk) == Size(f) + Size(chunk)
  {
    if |chunk| == 1 {
      assert (f + chunk)[..|f|] == f;
    } else {
      assert f + chunk == f;
    }
  }

  // ---------------------------------------------------------------- whole runs

  /** Wrote: a call of Write with its outcome. Restarted: a new process opens the same path,
      after a clean stop or a crash; a crash inside a rotation leaves a state that a rotation
      may break off in. */
  datatype Event = Wrote(p: Bytes, n: nat, err: Error) | Closed | Restarted(ok: bool)

  ghost predicate Next(s: State, t: State, maxBytes: nat, maxFiles: nat, e: Event)
    requires 0 < maxFiles
  {
    match e
    case Wrote(p, n, err) => n <= |p| && WriteStep(s, t, maxBytes, maxFiles, p, n, err)
    case Closed => t == s.(open := false, closed := true)
    case Restarted(ok) =>
      if ok then t == State(Created(s.slots), true, Size(Created(s.slots)[0]), false, s.accepted)
      else t.slots in {s.slots, Created(s.slots)} && t == s.(slots := t.slots, open := false, closed := true)
  }

  ghost predicate Run(states: seq<State>, events: seq<Event>, maxBytes: nat, maxFiles: nat)
    requires 0 < maxFiles
  {
    |states| == |events| + 1 && forall i :: 0 <= i < |events| ==> StepAt(states, events, maxBytes, maxFiles, i)
  }

  ghost predicate StepAt(states: seq<State>, events: seq<Event>, maxBytes: nat, maxFiles: nat, i: nat)
    requires 0 < maxFiles && |states| == |events| + 1 && i < |events|
  {
    Next(states[i], states[i + 1], maxBytes, maxFiles, events[i])
  }

  /** The chunks that the writes of a run accepted, in order. */
  function Accepted(events: seq<Event>): File {
    if |events| == 0 then []
    else
      Accepted(events[..|events| - 1]) +
      match events[|events| - 1]
      case Wrote(p, n, _) => if n <= |p| then Chunk(p, n) else []
      case _ => []
  }

  lemma NextKeepsInv(s: State, t: State, maxBytes: nat, maxFiles: nat, e: Event)
    requires 0 < maxFiles && Inv(s, maxFiles) && Next(s, t, maxBytes, maxFiles, e)
    ensures Inv(t, maxFiles)
  {
    match e
    case Wrote(p, n, err) =>
      WriteKeepsInv(s, t, maxBytes, maxFiles, p, n, err);
    case _ =>
      ReadAgree(t.slots, s.slots, maxFiles);
  }

  lemma AcceptedFront(events: seq<Event>)
    requires |events| > 0
    ensures var n := |events| - 1;
            Accepted(events) == Accepted(events[..n]) + Accepted([events[n]])
  {
    AcceptedOne(events[|events| - 1]);
  }

  /** What was accepted before the i-th event, the i-th event's chunk, and the rest. */
  lemma {:induction false} AcceptedAt(events: seq<Event>, i: nat)
    requires i < |events|
    ensures Accepted(events[..i]) + Accepted([events[i]]) <= Accepted(events)
  {
    var n := |events| - 1;
    AcceptedFront(events);
    if i < n {
      AcceptedAt(events[..n], i);
      assert events[..n][..i] == events[..i];
      PrefixOfLonger(Accepted(events[..i]) + Accepted([events[i]]), Accepted(events[..n]), Accepted([events[n]]));
    }
  }

  lemma PrefixOfLonger(a: File, b: File, c: File)
    requires a <= b
    ensures a <= b + c
  {
  }

  /** Every write that was reported without an error stands whole in what was accepted, behind
      everything accepted before it; every other write has left less than its record, if anything. */
  lemma ReportedIsAccepted(
      states: seq<State>, events: seq<Event>, maxBytes: nat, maxFiles: nat, i: nat, p: Bytes, n: nat, err: Error)
    requires 0 < maxFiles && Run(states, events, maxBytes, maxFiles)
    requires i < |events| && events[i] == Wrote(p, n, err) && p != []
    ensures err == NoError ==> Accepted(events[..i]) + [p] <= Accepted(events)
    ensures err != NoError ==>
              && n < |p| && (n > 0 ==> err == ShortWrite)
              && Accepted(events[..i]) + (if n == 0 then [] else [p[..n]]) <= Accepted(events)
  {
    assert StepAt(states, events, maxBytes, maxFiles, i);
    WriteErrors(states[i], states[i + 1], maxBytes, maxFiles, p, n, err);
    WriteIsWhole(states[i], states[i + 1], maxBytes, maxFiles, p, n, err);
    AcceptedOne(events[i]);
    AcceptedAt(events, i);
  }

  /** A record is accepted whole exactly when no error is reported. */
  lemma WriteIsWhole(s: State, t: State, maxBytes: nat, maxFiles: nat, p: Bytes, n: nat, err: Error)
    requires 0 < maxFiles && n <= |p| && WriteStep(s, t, maxBytes, maxFiles, p, n, err) && p != []
    ensures err == NoError <==> n == |p|
    ensures err == NoError ==> p[..n] == p
  {
  }

  lemma AcceptedAppend(events: seq<Event>, e: Event)
    ensures Accepted(events + [e]) == Accepted(events) + Accepted([e])
  {
    assert (events + [e])[..|events|] == events && [e][..0] == [];
  }

  /** A run without its last event is a run, and the last event is a step. */
  lemma RunFront(states: seq<State>, events: seq<Event>, maxBytes: nat, maxFiles: nat)
    requires 0 < maxFiles && Run(states, events, maxBytes, maxFiles) && |events| > 0
    ensures var n := |events| - 1;
            && Run(states[..n + 1], events[..n], maxBytes, maxFiles)
            && states[..n + 1][0] == states[0] && states[..n + 1][n] == states[n]
            && Next(states[n], states[n + 1], maxBytes, maxFiles, events[n])
  {
    var n := |events| - 1;
    assert StepAt(states, events, maxBytes, maxFiles, n);
    var fs, fe := states[..n + 1], events[..n];
    forall i | 0 <= i < n
      ensures StepAt(fs, fe, maxBytes, maxFiles, i)
    {
      assert StepAt(states, events, maxBytes, maxFiles, i);
    }
  }

  lemma {:induction false} RunKeepsValid(states: seq<State>, events: seq<Event>, maxBytes: nat, maxFiles: nat)
    requires 0 < maxFiles && Run(states, events, maxBytes, maxFiles) && Inv(states[0], maxFiles)
    ensures Inv(states[|events|], maxFiles)
  {
    if |events| > 0 {
      var n := |events| - 1;
      RunFront(states, events, maxBytes, maxFiles);
      RunKeepsValid(states[..n + 1], events[..n], maxBytes, maxFiles);
      NextKeepsInv(states[n], states[n + 1], maxBytes, maxFiles, events[n]);
    }
  }

  lemma NextAccepts(s: State, t: State, maxBytes: nat, maxFiles: nat, e: Event)
    requires 0 < maxFiles && Next(s, t, maxBytes, maxFiles, e)
    ensures t.accepted == s.accepted + Accepted([e])
  {
    AcceptedOne(e);
  }

  lemma {:induction false} RunAccepts(states: seq<State>, events: seq<Event>, maxBytes: nat, maxFiles: nat)
    requires 0 < maxFiles && Run(states, events, maxBytes, maxFiles)
    ensures states[|events|].accepted == states[0].accepted + Accepted(events)
  {
    if |events| > 0 {
      var n := |events| - 1;
      RunFront(states, events, maxBytes, maxFiles);
      RunAccepts(states[..n + 1], events[..n], maxBytes, maxFiles);
      NextAccepts(states[n], states[n + 1], maxBytes, maxFiles, events[n]);
      AcceptedAppend(events[..n], events[n]);
      assert events == events[..n] + [events[n]];
    }
  }

  /** Every run keeps the invariant, and accounts for all that was accepted. */
  lemma {:induction false} RunKeepsInv(states: seq<State>, events: seq<Event>, maxBytes: nat, maxFiles: nat)
    requires 0 < maxFiles && Run(states, events, maxBytes, maxFiles) && Inv(states[0], maxFiles)
    ensures Inv(states[|events|], maxFiles)
    ensures states[|events|].accepted == states[0].accepted + Accepted(events)
  {
    RunKeepsValid(states, events, maxBytes, maxFiles);
    RunAccepts(states, events, maxBytes, maxFiles);
  }

  /** Over every run, with any pattern of storage failures, crashes and restarts: the files read
      from the oldest backup to the primary are a contiguous suffix of what was there at first
      followed by everything accepted since. Nothing is reordered, repeated or skipped. */
  lemma {:induction false} RunRetainsSuffix(states: seq<State>, events: seq<Event>, maxBytes: nat, maxFiles: nat)
    requires 0 < maxFiles && Run(states, events, maxBytes, maxFiles)
    requires Inv(states[0], maxFiles) && states[0].accepted == ReadDown(states[0].slots, maxFiles)
    ensures IsSuffix(ReadDown(states[|events|].slots, maxFiles),
                     ReadDown(states[0].slots, maxFiles) + Accepted(events))
  {
    RunKeepsInv(states, events, maxBytes, maxFiles);
  }

  /** No file holds more than limit bytes. */
  ghost predicate Bounded(slots: Slots, limit: nat) {
    forall i :: i in slots ==> Size(slots[i]) <= limit
  }

  lemma WriteKeepsBound(s: State, t: State, maxBytes: nat, maxFiles: nat, p: Bytes, n: nat, err: Error, limit: nat)
    requires 0 < maxFiles && n <= |p| && Inv(s, maxFiles) && WriteStep(s, t, maxBytes, maxFiles, p, n, err)
    requires Bounded(s.slots, limit) && maxBytes <= limit
    ensures Bounded(t.slots, limit)
  {
    var base := Base(s).0;
    assert Bounded(base, limit);
    if !s.closed && |p| <= maxBytes {
      if err != Unavailable {
        TargetBound(base, Base(s).1, maxBytes, maxFiles, p, n, limit);
      } else if BreaksOff(base, maxFiles, t.slots) {
        BreaksOffBound(base, maxFiles, t.slots, limit);
      }
    }
  }

  lemma BreaksOffBound(slots: Slots, maxFiles: nat, broken: Slots, limit: nat)
    requires 0 < maxFiles && Bounded(slots, limit) && BreaksOff(slots, maxFiles, broken)
    ensures Bounded(broken, limit)
  {
    if i :| 0 <= i < maxFiles && broken == Shifted(slots, maxFiles, i) {
      ShiftedBound(slots, maxFiles, i, limit);
    } else {
      ShiftedBound(slots, maxFiles, 0, limit);
    }
  }

  /** An accepted write fits the file it goes to. */
  lemma TargetBound(base: Slots, size: nat, maxBytes: nat, maxFiles: nat, p: Bytes, n: nat, limit: nat)
    requires 0 < maxFiles && n <= |p| <= maxBytes <= limit && Bounded(base, limit) && size == Size(Content(base, 0))
    ensures Bounded(Appended(if size + |p| > maxBytes then Rotated(base, maxFiles) else base, Chunk(p, n)), limit)
  {
    ShiftedBound(base, maxFiles, 0, limit);
    var target := if size + |p| > maxBytes then Rotated(base, maxFiles) else base;
    assert Bounded(target, limit);
    SizeAppend(Content(target, 0), Chunk(p, n));
    ChunkSize(p, n);
  }

  lemma ChunkSize(p: Bytes, n: nat)
    requires n <= |p|
    ensures Size(Chunk(p, n)) == n
  {
    assert Chunk(p, n)[..0] == [];
  }

  lemma ShiftedBound(slots: Slots, maxFiles: nat, i: nat, limit: nat)
    requires i < maxFiles && Bounded(slots, limit)
    ensures Bounded(Shifted(slots, maxFiles, i), limit)
  {
    var shifted := Shifted(slots, maxFiles, i);
    forall j | j in shifted
      ensures Size(shifted[j]) <= limit
    {
      ShiftedAt(slots, maxFiles, i, j);
    }
  }

  /** No file ever outgrows max_bytes, unless it was larger when the run began. */
  lemma {:induction false} RunKeepsBound(
      states: seq<State>, events: seq<Event>, maxBytes: nat, maxFiles: nat, limit: nat)
    requires 0 < maxFiles && Run(states, events, maxBytes, maxFiles)
    requires Inv(states[0], maxFiles)
    requires Bounded(states[0].slots, limit) && maxBytes <= limit
    ensures Bounded(states[|events|].slots, limit)
  {
    if |events| > 0 {
      var n := |events| - 1;
      RunFront(states, events, maxBytes, maxFiles);
      RunKeepsBound(states[..n + 1], events[..n], maxBytes, maxFiles, limit);
      RunKeepsValid(states[..n + 1], events[..n], maxBytes, maxFiles);
      match events[n] {
        case Wrote(p, k, err) =>
          WriteKeepsBound(states[n], states[n + 1], maxBytes, maxFiles, p, k, err, limit);
        case _ =>
      }
    }
  }

  // ---------------------------------------------------------------- what a run can lose

  /** A write that the size check sends into a rotation. */
  function DidNotFit(s: State, maxBytes: nat, e: Event): nat {
    if e.Wrote? && !s.closed && |e.p| <= maxBytes && Base(s).1 + |e.p| > maxBytes then 1 else 0
  }

  /** The number of writes in a run that did not fit. */
  function Rotations(states: seq<State>, events: seq<Event>, maxBytes: nat): nat
    requires |states| == |events| + 1
  {
    if |events| == 0 then 0
    else
      var n := |events| - 1;
      Rotations(states[..n + 1], events[..n], maxBytes) + DidNotFit(states[n], maxBytes, events[n])
  }

  /** Files, one behind the other. */
  function Concat(files: seq<File>): File {
    if |files| == 0 then [] else Concat(files[..|files| - 1]) + files[|files| - 1]
  }

  lemma ConcatAppend(files: seq<File>, f: File)
    ensures Concat(files + [f]) == Concat(files) + f
  {
    assert (files + [f])[..|files|] == files;
  }

  /** One step loses no file, or the oldest one, and that only if its record did not fit. */
  lemma NextLosesFiles(s: State, t: State, maxBytes: nat, maxFiles: nat, e: Event) returns (lost: seq<File>)
    requires 0 < maxFiles && Inv(s, maxFiles) && Next(s, t, maxBytes, maxFiles, e)
    ensures |lost| <= DidNotFit(s, maxBytes, e)
    ensures forall f :: f in lost ==> f == Content(s.slots, maxFiles - 1)
    ensures ReadDown(s.slots, maxFiles) + Accepted([e]) == Concat(lost) + ReadDown(t.slots, maxFiles)
  {
    AcceptedOne(e);
    match e
    case Wrote(p, n, err) =>
      lost := WriteLosesFiles(s, t, maxBytes, maxFiles, p, n, err);
    case _ =>
      ReadAgree(t.slots, s.slots, maxFiles);
      lost := [];
  }

  lemma ConcatOne(f: File)
    ensures Concat([f]) == f
  {
    assert [f][..0] == [] && [] + f == f;
  }

  lemma AcceptedOne(e: Event)
    ensures Accepted([e]) == if e.Wrote? && e.n <= |e.p| then Chunk(e.p, e.n) else []
  {
    assert [e][..0] == [];
  }

  lemma WriteLosesFiles(s: State, t: State, maxBytes: nat, maxFiles: nat, p: Bytes, n: nat, err: Error)
      returns (lost: seq<File>)
    requires 0 < maxFiles && n <= |p| && Inv(s, maxFiles) && WriteStep(s, t, maxBytes, maxFiles, p, n, err)
    ensures |lost| <= DidNotFit(s, maxBytes, Wrote(p, n, err))
    ensures forall f :: f in lost ==> f == Content(s.slots, maxFiles - 1)
    ensures ReadDown(s.slots, maxFiles) + Chunk(p, n) == Concat(lost) + ReadDown(t.slots, maxFiles)
  {
    lost := [];
    if ReadDown(t.slots, maxFiles) != ReadDown(s.slots, maxFiles) + Chunk(p, n) {
      LosesOldest(s, t, maxBytes, maxFiles, p, n, err);
      lost := [Content(s.slots, maxFiles - 1)];
      ConcatOne(lost[0]);
    }
  }

  lemma LosesOldest(s: State, t: State, maxBytes: nat, maxFiles: nat, p: Bytes, n: nat, err: Error)
    requires 0 < maxFiles && n <= |p| && Inv(s, maxFiles) && WriteStep(s, t, maxBytes, maxFiles, p, n, err)
    requires ReadDown(t.slots, maxFiles) != ReadDown(s.slots, maxFiles) + Chunk(p, n)
    ensures DidNotFit(s, maxBytes, Wrote(p, n, err)) == 1
    ensures ReadDown(s.slots, maxFiles) + Chunk(p, n)
         == Content(s.slots, maxFiles - 1) + ReadDown(t.slots, maxFiles)
  {
    WriteLosesOldestOnly(s, t, maxBytes, maxFiles, p, n, err);
  }

  /** lost is what a run has lost: at most one file for each write that did not fit. */
  ghost predicate LostBy(
      states: seq<State>, events: seq<Event>, maxBytes: nat, maxFiles: nat, limit: nat, lost: seq<File>)
    requires |states| == |events| + 1
  {
    && |lost| <= Rotations(states, events, maxBytes)
    && (forall f :: f in lost ==> Size(f) <= limit)
    && ReadDown(states[0].slots, maxFiles) + Accepted(events)
       == Concat(lost) + ReadDown(states[|events|].slots, maxFiles)
  }

  lemma LostByStep(states: seq<State>, events: seq<Event>, maxBytes: nat, maxFiles: nat, limit: nat, before: seq<File>,
                   s: State, t: State, e: Event) returns (lost: seq<File>)
    requires 0 < maxFiles && |states| == |events| + 1 && LostBy(states, events, maxBytes, maxFiles, limit, before)
    requires s == states[|events|] && Inv(s, maxFiles) && Bounded(s.slots, limit)
    requires Next(s, t, maxBytes, maxFiles, e)
    ensures LostBy(states + [t], events + [e], maxBytes, maxFiles, limit, lost)
  {
    lost := LastLosesFiles(ReadDown(states[0].slots, maxFiles), Accepted(events), before, s, t, maxBytes, maxFiles, e,
                           limit);
    AcceptedAppend(events, e);
    RotationsAppend(states, events, maxBytes, t, e);
  }

  lemma RotationsAppend(states: seq<State>, events: seq<Event>, maxBytes: nat, t: State, e: Event)
    requires |states| == |events| + 1
    ensures Rotations(states + [t], events + [e], maxBytes)
         == Rotations(states, events, maxBytes) + DidNotFit(states[|events|], maxBytes, e)
  {
    assert (states + [t])[..|events| + 1] == states && (events + [e])[..|events|] == events;
  }

  lemma {:induction false} RunLostBy(
      states: seq<State>, events: seq<Event>, maxBytes: nat, maxFiles: nat, limit: nat) returns (lost: seq<File>)
    requires 0 < maxFiles && Run(states, events, maxBytes, maxFiles) && Inv(states[0], maxFiles)
    requires Bounded(states[0].slots, limit) && maxBytes <= limit
    ensures LostBy(states, events, maxBytes, maxFiles, limit, lost)
  {
    lost := [];
    if |events| > 0 {
      var n := |events| - 1;
      var fs, fe := states[..n + 1], events[..n];
      RunFront(states, events, maxBytes, maxFiles);
      RunKeepsValid(fs, fe, maxBytes, maxFiles);
      RunKeepsBound(fs, fe, maxBytes, maxFiles, limit);
      lost := RunLostBy(fs, fe, maxBytes, maxFiles, limit);
      lost := LostByStep(fs, fe, maxBytes, maxFiles, limit, lost, states[n], states[n + 1], events[n]);
      assert states == fs + [states[n + 1]] && events == fe + [events[n]];
    }
  }

  /** Over every run: what was there at first and what was accepted since is what is there now,
      behind at most one whole file for each write that did not fit. */
  lemma {:induction false} RunLosesFiles(
      states: seq<State>, events: seq<Event>, maxBytes: nat, maxFiles: nat, limit: nat) returns (lost: seq<File>)
    requires 0 < maxFiles && Run(states, events, maxBytes, maxFiles) && Inv(states[0], maxFiles)
    requires Bounded(states[0].slots, limit) && maxBytes <= limit
    ensures |lost| <= Rotations(states, events, maxBytes)
    ensures forall f :: f in lost ==> Size(f) <= limit
    ensures ReadDown(states[0].slots, maxFiles) + Accepted(events)
         == Concat(lost) + ReadDown(states[|events|].slots, maxFiles)
  {
    lost := RunLostBy(states, events, maxBytes, maxFiles, limit);
  }

  lemma LastLosesFiles(first: File, a: File, before: seq<File>, s: State, t: State, maxBytes: nat, maxFiles: nat,
                       e: Event, limit: nat) returns (lost: seq<File>)
    requires 0 < maxFiles && Inv(s, maxFiles) && Next(s, t, maxBytes, maxFiles, e)
    requires Bounded(s.slots, limit) && forall f :: f in before ==> Size(f) <= limit
    requires first + a == Concat(before) + ReadDown(s.slots, maxFiles)
    ensures |lost| <= |before| + DidNotFit(s, maxBytes, e)
    ensures forall f :: f in lost ==> Size(f) <= limit
    ensures first + (a + Accepted([e])) == Concat(lost) + ReadDown(t.slots, maxFiles)
  {
    var more := NextLosesFiles(s, t, maxBytes, maxFiles, e);
    ContentBound(s.slots, maxFiles - 1, limit);
    LostAppend(first, a, Accepted([e]), before, more, ReadDown(s.slots, maxFiles), ReadDown(t.slots, maxFiles));
    lost := before + more;
  }

  lemma ContentBound(slots: Slots, i: nat, limit: nat)
    requires Bounded(slots, limit)
    ensures Size(Content(slots, i)) <= limit
  {
  }

  lemma ConcatMore(before: seq<File>, more: seq<File>)
    requires |more| <= 1
    ensures Concat(before + more) == Concat(before) + Concat(more)
  {
    if |more| == 0 {
      assert before + more == before;
    } else {
      ConcatAppend(before, more[0]);
      ConcatAppend([], more[0]);
      assert before + more == before + [more[0]] && [] + [more[0]] == more;
    }
  }

  lemma Regroup(first: File, a: File, b: File, lost: File, more: File, mid: File, last: File)
    requires first + a == lost + mid && mid + b == more + last
    ensures first + (a + b) == (lost + more) + last
  {
    assert first + (a + b) == (first + a) + b;
    assert (lost + mid) + b == lost + (mid + b);
    assert lost + (more + last) == (lost + more) + last;
  }

  lemma LostAppend(first: File, a: File, b: File, before: seq<File>, more: seq<File>, mid: File, last: File)
    requires |more| <= 1
    requires first + a == Concat(before) + mid && mid + b == Concat(more) + last
    ensures first + (a + b) == Concat(before + more) + last
  {
    ConcatMore(before, more);
    Regroup(first, a, b, Concat(before), Concat(more), mid, last);
  }

  function Full(maxBytes: nat): Bytes {
    seq(maxBytes, i => 0)
  }

  predicate BehindGap(gap: nat, j: nat) {
    j == 0 || j > gap
  }

  /** Full files everywhere except in the slots 1 to gap. */
  function Gapped(maxBytes: nat, maxFiles: nat, gap: nat): Slots {
    map j: nat | j < maxFiles && BehindGap(gap, j) :: [Full(maxBytes)]
  }

  /** The primary's rename fails: the oldest file has gone all the same, and the gap is wider. */
  lemma GapWidens(maxBytes: nat, maxFiles: nat, gap: nat)
    requires gap + 1 < maxFiles
    ensures BreaksOff(Gapped(maxBytes, maxFiles, gap), maxFiles, Gapped(maxBytes, maxFiles, gap + 1))
  {
    var was, now := Gapped(maxBytes, maxFiles, gap), Gapped(maxBytes, maxFiles, gap + 1);
    if maxFiles == 2 {
      assert now == was - {1};
    } else {
      var shifted := Shifted(was, maxFiles, 1);
      forall j: nat
        ensures j in now <==> j in shifted
        ensures j in now ==> now[j] == shifted[j]
      {
        ShiftedAt(was, maxFiles, 1, j);
      }
      assert now == shifted;
    }
  }

  lemma {:induction false} GappedLength(maxBytes: nat, maxFiles: nat, gap: nat, n: nat)
    requires gap < n <= maxFiles
    ensures |ReadDown(Gapped(maxBytes, maxFiles, gap), n)| == n - gap
  {
    var slots := Gapped(maxBytes, maxFiles, gap);
    if n > gap + 1 {
      GappedLength(maxBytes, maxFiles, gap, n - 1);
    } else {
      GapIsEmpty(maxBytes, maxFiles, gap, n);
    }
  }

  lemma {:induction false} GapIsEmpty(maxBytes: nat, maxFiles: nat, gap: nat, n: nat)
    requires 0 < n <= maxFiles && n <= gap + 1
    ensures |ReadDown(Gapped(maxBytes, maxFiles, gap), n)| == 1
  {
    var slots := Gapped(maxBytes, maxFiles, gap);
    if n > 1 {
      GapIsEmpty(maxBytes, maxFiles, gap, n - 1);
      assert Content(slots, n - 1) == [];
    } else {
      assert ReadDown(slots, 1) == Content(slots, 0) + ReadDown(slots, 0);
    }
  }

  /** A run of k failing writes that has emptied the slots 1 to k. */
  ghost predicate FailingRun(states: seq<State>, events: seq<Event>, maxBytes: nat, maxFiles: nat, k: nat)
    requires 0 < maxFiles
  {
    && Run(states, events, maxBytes, maxFiles) && |events| == k
    && Rotations(states, events, maxBytes) == k && Accepted(events) == []
    && Inv(states[0], maxFiles) && states[0].slots == Gapped(maxBytes, maxFiles, 0)
    && states[k].slots == Gapped(maxBytes, maxFiles, k)
    && !states[k].closed && Base(states[k]) == (states[k].slots, maxBytes)
  }

  lemma FailingRunStart(maxBytes: nat, maxFiles: nat) returns (states: seq<State>, events: seq<Event>)
    requires 0 < maxBytes && 0 < maxFiles
    ensures FailingRun(states, events, maxBytes, maxFiles, 0)
  {
    var slots := Gapped(maxBytes, maxFiles, 0);
    FullSize(maxBytes);
    states, events := [State(slots, true, maxBytes, false, ReadDown(slots, maxFiles))], [];
  }

  lemma FailingRunStep(before: seq<State>, es: seq<Event>, maxBytes: nat, maxFiles: nat, k: nat)
      returns (states: seq<State>, events: seq<Event>)
    requires 0 < maxBytes && k + 1 < maxFiles && FailingRun(before, es, maxBytes, maxFiles, k)
    ensures FailingRun(states, events, maxBytes, maxFiles, k + 1)
  {
    var e := Wrote([0], 0, Unavailable);
    var t := FailingWrite(before[k], maxBytes, maxFiles, k, e);
    AppendStep(before, es, t, e, maxBytes, maxFiles);
    AcceptedOne(e);
    states, events := before + [t], es + [e];
    assert states[0] == before[0] && states[k + 1] == t;
    GappedBase(t, maxBytes, maxFiles, k + 1);
  }

  lemma GappedBase(t: State, maxBytes: nat, maxFiles: nat, gap: nat)
    requires 0 < maxFiles && t.slots == Gapped(maxBytes, maxFiles, gap) && !t.open
    ensures Base(t) == (t.slots, maxBytes)
  {
    FullSize(maxBytes);
  }

  lemma {:induction false} FailingRunOf(maxBytes: nat, maxFiles: nat, k: nat)
      returns (states: seq<State>, events: seq<Event>)
    requires 0 < maxBytes && k < maxFiles
    ensures FailingRun(states, events, maxBytes, maxFiles, k)
  {
    if k == 0 {
      states, events := FailingRunStart(maxBytes, maxFiles);
    } else {
      states, events := FailingRunOf(maxBytes, maxFiles, k - 1);
      states, events := FailingRunStep(states, events, maxBytes, maxFiles, k - 1);
    }
  }

  /** The bound is reached with nothing accepted in return: while the primary cannot be renamed,
      each of k failing writes costs one more full backup, as long as there is one. */
  lemma {:induction false} FailingWritesLoseFiles(maxBytes: nat, maxFiles: nat, k: nat)
      returns (states: seq<State>, events: seq<Event>)
    requires 0 < maxBytes && k < maxFiles
    ensures Run(states, events, maxBytes, maxFiles) && Inv(states[0], maxFiles)
    ensures Rotations(states, events, maxBytes) == |events| == k && Accepted(events) == []
    ensures |ReadDown(states[0].slots, maxFiles)| == maxFiles
    ensures |ReadDown(states[k].slots, maxFiles)| == maxFiles - k
  {
    states, events := FailingRunOf(maxBytes, maxFiles, k);
    GappedLength(maxBytes, maxFiles, 0, maxFiles);
    GappedLength(maxBytes, maxFiles, k, maxFiles);
  }

  lemma FailingWrite(s: State, maxBytes: nat, maxFiles: nat, gap: nat, e: Event) returns (t: State)
    requires 0 < maxBytes && gap + 1 < maxFiles && e == Wrote([0], 0, Unavailable) && !s.closed
    requires s.slots == Gapped(maxBytes, maxFiles, gap) && Base(s) == (s.slots, maxBytes)
    ensures Next(s, t, maxBytes, maxFiles, e) && DidNotFit(s, maxBytes, e) == 1
    ensures t == s.(slots := Gapped(maxBytes, maxFiles, gap + 1), open := false, size := maxBytes)
  {
    t := s.(slots := Gapped(maxBytes, maxFiles, gap + 1), open := false, size := maxBytes);
    GapWidens(maxBytes, maxFiles, gap);
    assert RotationFails(s, t, maxBytes, maxFiles, [0]);
  }

  lemma FullSize(maxBytes: nat)
    ensures Size([Full(maxBytes)]) == maxBytes
  {
    assert [Full(maxBytes)][..0] == [];
  }

  lemma AppendStep(states: seq<State>, events: seq<Event>, t: State, e: Event, maxBytes: nat, maxFiles: nat)
    requires 0 < maxFiles && Run(states, events, maxBytes, maxFiles)
    requires Next(states[|events|], t, maxBytes, maxFiles, e)
    ensures Run(states + [t], events + [e], maxBytes, maxFiles)
    ensures Accepted(events + [e]) == Accepted(events) + Accepted([e])
    ensures Rotations(states + [t], events + [e], maxBytes)
         == Rotations(states, events, maxBytes) + DidNotFit(states[|events|], maxBytes, e)
  {
    AcceptedAppend(events, e);
    assert (states + [t])[..|events| + 1] == states && (events + [e])[..|events|] == events;
    var more, es := states + [t], events + [e];
    forall i | 0 <= i <= |events|
      ensures StepAt(more, es, maxBytes, maxFiles, i)
    {
      assert i < |events| ==> StepAt(states, events, maxBytes, maxFiles, i);
    }
  }
}
