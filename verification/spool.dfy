/** The delivery spool as a protocol: any number of pushes and drainers, I/O failures, crashes
    and reopens, each step one critical section or one file operation. */
module Spool {
  import opened Prelude
  import opened SpoolName

  /** A payload on disk; `id` names the push it belongs to (ghost bookkeeping of the model). */
  datatype File = File(data: bytes, id: nat)

  type Disk = map<string, File>

  /** What the mutex guards. */
  datatype Memory = Memory(nextSeq: nat, totalBytes: nat, pending: map<nat, nat>)

  datatype PushStage = Reserved | Synced | Published | Failed

  datatype Push = Push(file: File, stage: PushStage)

  datatype DrainStage = Picked | Loaded(file: File) | Sent(file: File) | Unlinked(file: File)

  datatype Drain = Drain(seqNo: nat, len: nat, stage: DrainStage)

  /** A payload the sender was told is accepted, and the sequence its push returned, if any. */
  datatype Receipt = Receipt(data: bytes, seqNo: Option<nat>)

  datatype Sys = Sys(
    maxBytes: nat,
    disk: Disk,
    up: bool,
    mem: Memory,
    pushes: map<nat, Push>,    // in flight, by reserved sequence
    drains: map<nat, Drain>,   // in flight, by drainer
    nextId: nat,
    forwarded: set<File>,      // payloads the destination has acknowledged
    accepted: map<nat, Receipt>,
    recovered: nat,            // bytes found when the spool was opened
    settled: set<nat>,         // sequences recovered or committed since it was opened
    delivered: set<nat>)       // sequences forwarded since it was opened

  // ----- sums over the sequences below a bound

  function Sum(m: map<nat, nat>, n: nat): nat {
    if n == 0 then 0 else Sum(m, n - 1) + if n - 1 in m then m[n - 1] else 0
  }

  lemma {:induction false} SumInsert(m: map<nat, nat>, k: nat, v: nat, n: nat)
    requires k !in m
    ensures Sum(m[k := v], n) == Sum(m, n) + if k < n then v else 0
  {
    if n > 0 { SumInsert(m, k, v, n - 1); }
  }

  lemma {:induction false} SumRemove(m: map<nat, nat>, k: nat, n: nat)
    requires k in m
    ensures Sum(m, n) == Sum(m - {k}, n) + if k < n then m[k] else 0
  {
    if n > 0 { SumRemove(m, k, n - 1); }
  }

  lemma {:induction false} SumBeyond(m: map<nat, nat>, n: nat, n': nat)
    requires n <= n' && forall k <- m :: k < n
    ensures Sum(m, n') == Sum(m, n)
    decreases n'
  {
    if n < n' { SumBeyond(m, n, n' - 1); }
  }

  /** Bytes reserved by pushes that have not yet committed or rolled back. */
  function Reserving(pushes: map<nat, Push>): map<nat, nat> {
    map k | k in pushes :: |pushes[k].file.data|
  }

  function Booked(s: Sys): nat {
    Sum(s.mem.pending, s.mem.nextSeq) + Sum(Reserving(s.pushes), s.mem.nextSeq)
  }

  function SaturatingSub(a: nat, b: nat): nat {
    if a >= b then a - b else 0
  }

  function Max(a: nat, b: nat): nat {
    if a >= b then a else b
  }

  // ----- the critical sections, as functions of the guarded memory

  predicate Fits(m: Memory, maxBytes: nat, len: nat) {
    m.totalBytes + len <= maxBytes
  }

  function Reserve(m: Memory, len: nat): Memory {
    m.(nextSeq := m.nextSeq + 1, totalBytes := m.totalBytes + len)
  }

  function Commit(m: Memory, seqNo: nat, len: nat): Memory {
    m.(pending := m.pending[seqNo := len])
  }

  function Release(m: Memory, len: nat): Memory {
    m.(totalBytes := SaturatingSub(m.totalBytes, len))
  }

  predicate Oldest(m: Memory, seqNo: nat) {
    seqNo in m.pending && forall k <- m.pending :: seqNo <= k
  }

  function Forget(m: Memory, seqNo: nat, len: nat): Memory {
    if seqNo in m.pending then Release(m.(pending := m.pending - {seqNo}), len) else m
  }

  /** What opening the directory must find: the published files, and a sequence above them all. */
  ghost predicate Recovers(disk: Disk, m: Memory) {
    && (forall name <- disk :: ParseSeq(name).Some? ==>
          ParseSeq(name).value in m.pending && m.pending[ParseSeq(name).value] == |disk[name].data|)
    && (forall k <- m.pending :: k < U64 && Name(k) in disk && k < m.nextSeq)
    && (m.nextSeq == 0 || m.nextSeq - 1 in m.pending)
    && m.totalBytes == Sum(m.pending, m.nextSeq)
  }

  // ----- steps

  datatype Action =
    | ReservePush(data: bytes)
    | WriteTmp(seqNo: nat, partialData: bytes)   // create, or any part of the write
    | SyncTmp(seqNo: nat)                        // the whole payload written and fsynced
    | Rename(seqNo: nat)
    | FailPush(seqNo: nat)                       // any I/O error before the rename took effect
    | CommitPush(seqNo: nat)
    | RollBack(seqNo: nat)
    | DirectForward(data: bytes)                 // forwarded at once, never spooled
    | Pick(drainer: nat, seqNo: nat)
    | Load(drainer: nat)
    | Retry(drainer: nat)                        // unreadable, or the destination refused
    | Forward(drainer: nat)
    | Unlink(drainer: nat, removed: bool)        // removal may fail silently
    | ForgetSent(drainer: nat)
    | Crash(disk: Disk)
    | Open(mem: Memory, disk: Disk)

  /** Published files are as they were; anything else in the directory may have changed. */
  ghost predicate SamePublished(d: Disk, d': Disk) {
    forall name: string | ParseSeq(name).Some? :: (name in d <==> name in d') && (name in d ==> d[name] == d'[name])
  }

  ghost predicate Enabled(s: Sys, a: Action) {
    match a
    case ReservePush(data) => s.up && Fits(s.mem, s.maxBytes, |data|) && s.mem.nextSeq + 1 < U64
    case WriteTmp(n, _) => s.up && n in s.pushes && s.pushes[n].stage.Reserved?
    case SyncTmp(n) => s.up && n in s.pushes && s.pushes[n].stage.Reserved?
    case Rename(n) => s.up && n in s.pushes && s.pushes[n].stage.Synced? && TmpName(n) in s.disk
    case FailPush(n) => s.up && n in s.pushes && (s.pushes[n].stage.Reserved? || s.pushes[n].stage.Synced?)
    case CommitPush(n) => s.up && n in s.pushes && s.pushes[n].stage.Published?
    case RollBack(n) => s.up && n in s.pushes && s.pushes[n].stage.Failed?
    case DirectForward(_) => s.up
    case Pick(d, n) => s.up && d !in s.drains && Oldest(s.mem, n)
    case Load(d) => s.up && d in s.drains && s.drains[d].stage.Picked? && Name(s.drains[d].seqNo) in s.disk
    case Retry(d) => s.up && d in s.drains && (s.drains[d].stage.Picked? || s.drains[d].stage.Loaded?)
    case Forward(d) => s.up && d in s.drains && s.drains[d].stage.Loaded?
    case Unlink(d, _) => s.up && d in s.drains && s.drains[d].stage.Sent?
    case ForgetSent(d) => s.up && d in s.drains && s.drains[d].stage.Unlinked?
    case Crash(disk) => s.up && SamePublished(s.disk, disk)
    case Open(mem, disk) => !s.up && SamePublished(s.disk, disk) && Recovers(disk, mem) && mem.nextSeq < U64
  }

  ghost function Next(s: Sys, a: Action): Sys
    requires Enabled(s, a)
  {
    match a
    case ReservePush(data) =>
      s.(mem := Reserve(s.mem, |data|), nextId := s.nextId + 1,
         pushes := s.pushes[s.mem.nextSeq := Push(File(data, s.nextId), Reserved)])
    case WriteTmp(n, part) => s.(disk := s.disk[TmpName(n) := File(part, s.pushes[n].file.id)])
    case SyncTmp(n) =>
      s.(disk := s.disk[TmpName(n) := s.pushes[n].file], pushes := s.pushes[n := s.pushes[n].(stage := Synced)])
    case Rename(n) =>
      s.(disk := (s.disk - {TmpName(n)})[Name(n) := s.disk[TmpName(n)]],
         pushes := s.pushes[n := s.pushes[n].(stage := Published)])
    case FailPush(n) => s.(pushes := s.pushes[n := s.pushes[n].(stage := Failed)])
    case CommitPush(n) =>
      var f := s.pushes[n].file;
      s.(mem := Commit(s.mem, n, |f.data|), pushes := s.pushes - {n},
         accepted := s.accepted[f.id := Receipt(f.data, Some(n))], settled := s.settled + {n})
    case RollBack(n) => s.(mem := Release(s.mem, |s.pushes[n].file.data|), pushes := s.pushes - {n})
    case DirectForward(data) =>
      s.(forwarded := s.forwarded + {File(data, s.nextId)},
         accepted := s.accepted[s.nextId := Receipt(data, None)], nextId := s.nextId + 1)
    case Pick(d, n) => s.(drains := s.drains[d := Drain(n, s.mem.pending[n], Picked)])
    case Load(d) => s.(drains := s.drains[d := s.drains[d].(stage := Loaded(s.disk[Name(s.drains[d].seqNo)]))])
    case Retry(d) => s.(drains := s.drains - {d})
    case Forward(d) =>
      var f := s.drains[d].stage.file;
      s.(drains := s.drains[d := s.drains[d].(stage := Sent(f))],
         forwarded := s.forwarded + {f}, delivered := s.delivered + {s.drains[d].seqNo})
    case Unlink(d, removed) =>
      s.(drains := s.drains[d := s.drains[d].(stage := Unlinked(s.drains[d].stage.file))],
         disk := if removed then s.disk - {Name(s.drains[d].seqNo)} else s.disk)
    case ForgetSent(d) => s.(mem := Forget(s.mem, s.drains[d].seqNo, s.drains[d].len), drains := s.drains - {d})
    case Crash(disk) => s.(disk := disk, up := false, pushes := map[], drains := map[], settled := {}, delivered := {})
    case Open(mem, disk) =>
      s.(disk := disk, up := true, mem := mem, recovered := mem.totalBytes,
         settled := mem.pending.Keys, delivered := {})
  }

  // ----- what every step keeps

  /** Every accepted payload was forwarded, or is on disk with its own bytes under the name of
      the sequence its push returned. */
  ghost predicate NothingLost(s: Sys) {
    forall id <- s.accepted :: Safe(s, id)
  }

  ghost predicate Safe(s: Sys, id: nat)
    requires id in s.accepted
  {
    Payload(s, id) in s.forwarded || Held(s, id)
  }

  function Payload(s: Sys, id: nat): File
    requires id in s.accepted
  {
    File(s.accepted[id].data, id)
  }

  predicate Held(s: Sys, id: nat)
    requires id in s.accepted
  {
    var n := s.accepted[id].seqNo;
    n.Some? && n.value < U64 && HeldAs(s.disk, n.value, Payload(s, id))
  }

  predicate HeldAs(disk: Disk, n: nat, f: File) {
    Name(n) in disk && disk[Name(n)] == f
  }

  ghost predicate FilesNumbered(s: Sys) {
    forall n: nat | n < U64 && Name(n) in s.disk :: n < s.mem.nextSeq
  }

  ghost predicate PushOk(s: Sys, n: nat, p: Push) {
    && n < s.mem.nextSeq
    && n !in s.mem.pending
    && p.file.id < s.nextId
    && p.file.id !in s.accepted
    && (p.stage.Published? ==> HeldAs(s.disk, n, p.file))
    && (!p.stage.Published? ==> Name(n) !in s.disk)
    && (p.stage.Synced? ==> TmpName(n) in s.disk ==> s.disk[TmpName(n)] == p.file)
  }

  ghost predicate PushesOk(s: Sys) {
    && (forall n <- s.pushes :: PushOk(s, n, s.pushes[n]))
    && forall m, n | m in s.pushes && n in s.pushes && m != n :: s.pushes[m].file.id != s.pushes[n].file.id
  }

  /** A drainer's bytes are the file's, as long as the file exists. */
  ghost predicate DrainOk(s: Sys, d: Drain) {
    && d.seqNo < s.mem.nextSeq
    && d.seqNo !in s.pushes
    && (d.seqNo in s.mem.pending ==> s.mem.pending[d.seqNo] == d.len)
    && (!d.stage.Picked? ==> Name(d.seqNo) in s.disk ==> s.disk[Name(d.seqNo)] == d.stage.file)
    && (d.stage.Sent? || d.stage.Unlinked? ==> d.stage.file in s.forwarded && d.seqNo in s.delivered)
  }

  ghost predicate DrainsOk(s: Sys) {
    forall d <- s.drains :: DrainOk(s, s.drains[d])
  }

  ghost predicate MemoryOk(s: Sys) {
    && s.mem.nextSeq < U64
    && (forall k <- s.mem.pending :: k < s.mem.nextSeq)
    && s.mem.totalBytes == Booked(s)
    && s.mem.totalBytes <= Max(s.maxBytes, s.recovered)
    && s.settled <= s.mem.pending.Keys + s.delivered
    && (forall k <- s.delivered :: k < s.mem.nextSeq)
  }

  ghost predicate Inv(s: Sys) {
    && NothingLost(s)
    && (forall id <- s.accepted :: id < s.nextId)
    && if s.up then FilesNumbered(s) && PushesOk(s) && DrainsOk(s) && MemoryOk(s)
       else s.pushes == map[] && s.drains == map[]
  }

  /** A spool never opened, over any directory; new payloads get ids no old file has. */
  ghost predicate Initial(s: Sys) {
    && !s.up && s.pushes == map[] && s.drains == map[] && s.accepted == map[] && s.forwarded == {}
    && forall name <- s.disk :: s.disk[name].id < s.nextId
  }

  lemma InitialOk(s: Sys)
    requires Initial(s)
    ensures Inv(s)
  {
  }

  lemma InvParts(s: Sys)
    requires Inv(s) && s.up
    ensures NothingLost(s) && FilesNumbered(s) && PushesOk(s) && DrainsOk(s) && MemoryOk(s) && s.mem.nextSeq < U64
    ensures forall id <- s.accepted :: id < s.nextId
    ensures forall k <- s.delivered :: k < s.mem.nextSeq
  {
    hide NothingLost, FilesNumbered, PushesOk, DrainsOk;
  }

  lemma InvFrom(s: Sys)
    requires s.up && NothingLost(s) && FilesNumbered(s) && PushesOk(s) && DrainsOk(s) && MemoryOk(s)
    requires forall id <- s.accepted :: id < s.nextId
    ensures Inv(s)
  {
    hide NothingLost, FilesNumbered, PushesOk, DrainsOk, MemoryOk;
  }

  lemma NamesApart()
    ensures forall m: nat, n: nat | m < U64 && n < U64 && Name(m) == Name(n) :: m == n
    ensures forall m: nat, n: nat | m < U64 && n < U64 && TmpName(m) == TmpName(n) :: m == n
    ensures forall m: nat, n: nat | m < U64 && n < U64 :: Name(m) != TmpName(n)
    ensures forall n: nat | n < U64 :: ParseSeq(Name(n)) == Some(n)
  {
    hide Name, TmpName, ParseSeq;
    forall m: nat, n: nat | m < U64 && n < U64
      ensures (Name(m) == Name(n) ==> m == n) && (TmpName(m) == TmpName(n) ==> m == n) && Name(m) != TmpName(n)
    {
      NamesDistinct(m, n);
    }
    forall n: nat | n < U64 ensures ParseSeq(Name(n)) == Some(n) { ParseOfName(n); }
  }

  lemma ReserveBooks(s: Sys, data: bytes)
    requires Inv(s) && Enabled(s, ReservePush(data))
    ensures MemoryOk(Next(s, ReservePush(data)))
  {
    hide Name, TmpName, ParseSeq, Sum, PushOk, NothingLost, FilesNumbered, DrainsOk;
    var t, n := Next(s, ReservePush(data)), s.mem.nextSeq;
    SumBeyond(s.mem.pending, n, n + 1);
    assert forall k <- s.pushes :: PushOk(s, k, s.pushes[k]);
    ReservedBelow(s);
    SumBeyond(Reserving(s.pushes), n, n + 1);
    SumInsert(Reserving(s.pushes), n, |data|, n + 1);
    assert Reserving(t.pushes) == Reserving(s.pushes)[n := |data|];
  }

  lemma ReservedBelow(s: Sys)
    requires PushesOk(s)
    ensures forall k <- s.pushes :: k < s.mem.nextSeq
  {
    hide Name, TmpName;
  }

  lemma ReserveFiles(s: Sys, data: bytes)
    requires Inv(s) && Enabled(s, ReservePush(data))
    ensures var t := Next(s, ReservePush(data)); NothingLost(t) && FilesNumbered(t) && PushesOk(t) && DrainsOk(t)
  {
    hide Name, TmpName, ParseSeq, Sum, Booked;
    assert forall id <- s.accepted | Safe(s, id) :: Safe(Next(s, ReservePush(data)), id);
  }

  lemma ReserveKeeps(s: Sys, data: bytes)
    requires Inv(s) && Enabled(s, ReservePush(data))
    ensures Inv(Next(s, ReservePush(data)))
  {
    ReserveBooks(s, data);
    ReserveFiles(s, data);
    hide Name, NothingLost, FilesNumbered, PushesOk, DrainsOk, MemoryOk;
  }

  lemma MemorySame(s: Sys, t: Sys)
    requires MemoryOk(s) && t.mem == s.mem && t.maxBytes == s.maxBytes && t.recovered == s.recovered
    requires t.settled == s.settled && t.delivered == s.delivered
    requires Reserving(t.pushes) == Reserving(s.pushes)
    ensures MemoryOk(t)
  {
    hide Sum;
  }

  lemma HeldThrough(s: Sys, t: Sys)
    requires NothingLost(s) && SamePublished(s.disk, t.disk)
    requires t.accepted == s.accepted && s.forwarded <= t.forwarded
    ensures NothingLost(t)
  {
    hide Name, TmpName, ParseSeq;
    NamesApart();
    forall id <- t.accepted ensures Safe(t, id) { assert Safe(s, id); }
  }

  lemma FilesThrough(s: Sys, t: Sys)
    requires FilesNumbered(s) && SamePublished(s.disk, t.disk) && t.mem.nextSeq >= s.mem.nextSeq
    ensures FilesNumbered(t)
  {
    hide Name, TmpName, ParseSeq;
    NamesApart();
  }

  lemma DrainsThrough(s: Sys, t: Sys)
    requires DrainsOk(s) && SamePublished(s.disk, t.disk) && s.mem.nextSeq < U64
    requires t.mem.nextSeq == s.mem.nextSeq && t.mem.pending == s.mem.pending && t.pushes.Keys <= s.pushes.Keys
    requires t.drains == s.drains && t.forwarded == s.forwarded && t.delivered == s.delivered
    ensures DrainsOk(t)
  {
    hide Name, TmpName, ParseSeq;
    NamesApart();
  }

  lemma TmpIsNotPublished(s: Sys, n: nat, f: File)
    requires n < U64
    ensures SamePublished(s.disk, s.disk[TmpName(n) := f])
  {
    TmpNamesEnd(n);
    TmpNeverParses(TmpName(n));
    hide TmpName, ParseSeq;
  }

  lemma TmpWritePushes(s: Sys, n: nat, f: File, stage: PushStage)
    requires PushesOk(s) && n in s.pushes && s.pushes[n].stage.Reserved? && s.mem.nextSeq < U64
    requires stage.Reserved? || (stage.Synced? && f == s.pushes[n].file)
    ensures PushesOk(s.(disk := s.disk[TmpName(n) := f], pushes := s.pushes[n := s.pushes[n].(stage := stage)]))
  {
    hide Name, TmpName, ParseSeq;
    NamesApart();
  }

  lemma TmpWriteKeeps(s: Sys, n: nat, f: File, stage: PushStage)
    requires Inv(s) && s.up && n in s.pushes && s.pushes[n].stage.Reserved?
    requires stage.Reserved? || (stage.Synced? && f == s.pushes[n].file)
    ensures Inv(s.(disk := s.disk[TmpName(n) := f], pushes := s.pushes[n := s.pushes[n].(stage := stage)]))
  {
    var t := s.(disk := s.disk[TmpName(n) := f], pushes := s.pushes[n := s.pushes[n].(stage := stage)]);
    assert Reserving(t.pushes) == Reserving(s.pushes) && n < U64 && s.mem.nextSeq < U64;
    hide Name, TmpName, SamePublished, FilesNumbered, PushesOk, DrainsOk, MemoryOk, NothingLost;
    TmpIsNotPublished(s, n, f);
    TmpWritePushes(s, n, f, stage);
    DrainsThrough(s, t);
    FilesThrough(s, t);
    HeldThrough(s, t);
    MemorySame(s, t);
  }

  lemma RenamePushes(s: Sys, n: nat)
    requires PushesOk(s) && Enabled(s, Rename(n)) && s.mem.nextSeq < U64
    ensures PushesOk(Next(s, Rename(n)))
  {
    hide Name, TmpName, ParseSeq;
    NamesApart();
  }

  lemma RenameDrains(s: Sys, n: nat)
    requires DrainsOk(s) && PushesOk(s) && Enabled(s, Rename(n)) && s.mem.nextSeq < U64
    ensures DrainsOk(Next(s, Rename(n)))
  {
    hide Name, TmpName, ParseSeq;
    NamesApart();
  }

  lemma RenameHolds(s: Sys, n: nat)
    requires NothingLost(s) && FilesNumbered(s) && PushesOk(s) && Enabled(s, Rename(n)) && s.mem.nextSeq < U64
    ensures NothingLost(Next(s, Rename(n))) && FilesNumbered(Next(s, Rename(n)))
    ensures Name(n) !in s.disk
  {
    hide Name, TmpName, ParseSeq;
    NamesApart();
    var t := Next(s, Rename(n));
    forall id <- t.accepted ensures Safe(t, id) { assert Safe(s, id); }
  }

  lemma RenameKeeps(s: Sys, n: nat)
    requires Inv(s) && Enabled(s, Rename(n))
    ensures Inv(Next(s, Rename(n)))
    ensures Name(n) !in s.disk
  {
    var t := Next(s, Rename(n));
    assert Reserving(t.pushes) == Reserving(s.pushes) && s.mem.nextSeq < U64;
    RenamePushes(s, n);
    RenameDrains(s, n);
    RenameHolds(s, n);
    hide Name, TmpName, FilesNumbered, PushesOk, DrainsOk, MemoryOk, NothingLost;
    MemorySame(s, t);
  }

  lemma FailPushes(s: Sys, n: nat)
    requires PushesOk(s) && Enabled(s, FailPush(n))
    ensures PushesOk(Next(s, FailPush(n)))
  {
    hide Name, TmpName;
  }

  lemma FailNext(s: Sys, n: nat)
    requires Enabled(s, FailPush(n))
    ensures var t := Next(s, FailPush(n));
      s.up && t == s.(pushes := t.pushes) && t.pushes.Keys == s.pushes.Keys
        && Reserving(t.pushes) == Reserving(s.pushes)
  {
  }

  lemma FailKeeps(s: Sys, n: nat)
    requires Inv(s) && Enabled(s, FailPush(n))
    ensures Inv(Next(s, FailPush(n)))
  {
    hide *;
    var t := Next(s, FailPush(n));
    FailNext(s, n);
    InvParts(s);
    FailPushes(s, n);
    SameDisk(s.disk);
    DrainsThrough(s, t);
    FilesThrough(s, t);
    HeldThrough(s, t);
    MemorySame(s, t);
    InvFrom(t);
  }

  lemma SameDisk(d: Disk)
    ensures SamePublished(d, d)
  {
  }

  lemma CommitBooks(s: Sys, n: nat)
    requires Inv(s) && Enabled(s, CommitPush(n))
    ensures MemoryOk(Next(s, CommitPush(n)))
  {
    hide Name, TmpName, ParseSeq, Sum, NothingLost, FilesNumbered, DrainsOk;
    var t, f := Next(s, CommitPush(n)), s.pushes[n].file;
    assert PushOk(s, n, s.pushes[n]);
    SumInsert(s.mem.pending, n, |f.data|, s.mem.nextSeq);
    SumRemove(Reserving(s.pushes), n, s.mem.nextSeq);
    assert Reserving(t.pushes) == Reserving(s.pushes) - {n};
  }

  lemma CommitFiles(s: Sys, n: nat)
    requires Inv(s) && Enabled(s, CommitPush(n))
    ensures var t := Next(s, CommitPush(n));
      NothingLost(t) && FilesNumbered(t) && PushesOk(t) && DrainsOk(t) && forall id <- t.accepted :: id < t.nextId
  {
    hide Name, TmpName, ParseSeq, Sum, Booked;
    var t, f := Next(s, CommitPush(n)), s.pushes[n].file;
    forall id <- t.accepted ensures Safe(t, id) {
      if id != f.id { assert Safe(s, id); }
    }
  }

  lemma CommitKeeps(s: Sys, n: nat)
    requires Inv(s) && Enabled(s, CommitPush(n))
    ensures Inv(Next(s, CommitPush(n)))
  {
    CommitBooks(s, n);
    CommitFiles(s, n);
    hide Name, NothingLost, FilesNumbered, PushesOk, DrainsOk, MemoryOk;
  }

  lemma RollBackPushes(s: Sys, n: nat)
    requires PushesOk(s) && Enabled(s, RollBack(n))
    ensures PushesOk(Next(s, RollBack(n)))
  {
    hide Name, TmpName;
  }

  lemma RollBackNext(s: Sys, n: nat)
    requires Enabled(s, RollBack(n))
    ensures var t := Next(s, RollBack(n));
      && s.up && n in s.pushes && t == s.(mem := Release(s.mem, |s.pushes[n].file.data|), pushes := s.pushes - {n})
      && Reserving(t.pushes) == Reserving(s.pushes) - {n}
      && n in Reserving(s.pushes) && Reserving(s.pushes)[n] == |s.pushes[n].file.data|
  {
  }

  lemma RollBackBooks(s: Sys, n: nat)
    requires MemoryOk(s) && PushesOk(s) && Enabled(s, RollBack(n))
    ensures MemoryOk(Next(s, RollBack(n)))
    ensures n in s.pushes && s.mem.totalBytes >= |s.pushes[n].file.data|
  {
    hide Name, TmpName, Sum, PushOk, PushesOk, Enabled, Next, Reserving;
    RollBackNext(s, n);
    ReservedBelow(s);
    SumRemove(Reserving(s.pushes), n, s.mem.nextSeq);
  }

  lemma ReleaseParts(m: Memory, len: nat)
    ensures Release(m, len).nextSeq == m.nextSeq && Release(m, len).pending == m.pending
  {
  }

  lemma RollBackKeeps(s: Sys, n: nat)
    requires Inv(s) && Enabled(s, RollBack(n))
    ensures Inv(Next(s, RollBack(n)))
    ensures n in s.pushes && s.mem.totalBytes >= |s.pushes[n].file.data|
  {
    hide *;
    var t := Next(s, RollBack(n));
    RollBackNext(s, n);
    InvParts(s);
    RollBackPushes(s, n);
    RollBackBooks(s, n);
    SameDisk(s.disk);
    ReleaseParts(s.mem, |s.pushes[n].file.data|);
    DrainsThrough(s, t);
    FilesThrough(s, t);
    HeldThrough(s, t);
    InvFrom(t);
  }

  lemma DirectNext(s: Sys, data: bytes)
    requires Enabled(s, DirectForward(data))
    ensures var t := Next(s, DirectForward(data));
      && s.up && t == s.(forwarded := s.forwarded + {File(data, s.nextId)},
                         accepted := s.accepted[s.nextId := Receipt(data, None)], nextId := s.nextId + 1)
  {
  }

  lemma DirectHolds(s: Sys, data: bytes)
    requires NothingLost(s) && Enabled(s, DirectForward(data)) && forall id <- s.accepted :: id < s.nextId
    ensures NothingLost(Next(s, DirectForward(data)))
  {
    hide Name, Enabled, Next;
    var t := Next(s, DirectForward(data));
    DirectNext(s, data);
    forall id <- t.accepted ensures Safe(t, id) {
      if id != s.nextId { assert Safe(s, id); }
    }
  }

  lemma DirectOthers(s: Sys, data: bytes)
    requires PushesOk(s) && DrainsOk(s) && Enabled(s, DirectForward(data))
    ensures PushesOk(Next(s, DirectForward(data))) && DrainsOk(Next(s, DirectForward(data)))
  {
    hide Name, TmpName, Enabled, Next;
    DirectNext(s, data);
  }

  lemma DirectKeeps(s: Sys, data: bytes)
    requires Inv(s) && Enabled(s, DirectForward(data))
    ensures Inv(Next(s, DirectForward(data)))
  {
    hide *;
    var t := Next(s, DirectForward(data));
    DirectNext(s, data);
    InvParts(s);
    DirectHolds(s, data);
    DirectOthers(s, data);
    SameDisk(s.disk);
    FilesThrough(s, t);
    MemorySame(s, t);
    InvFrom(t);
  }

  /** Steps that change only what one drainer knows, and what has been forwarded. */
  lemma DrainerKeeps(s: Sys, t: Sys)
    requires Inv(s) && s.up
    requires t == s.(drains := t.drains, forwarded := t.forwarded, delivered := t.delivered)
    requires s.forwarded <= t.forwarded && s.delivered <= t.delivered && DrainsOk(t)
    requires forall k <- t.delivered :: k < s.mem.nextSeq
    ensures Inv(t)
  {
    hide Name, TmpName, Sum, PushOk, DrainsOk;
    assert Booked(t) == Booked(s);
    assert forall id <- s.accepted | Safe(s, id) :: Safe(t, id);
    assert forall n <- s.pushes | PushOk(s, n, s.pushes[n]) :: PushOk(t, n, t.pushes[n]) by { PushesSame(s, t); }
  }

  lemma PushesSame(s: Sys, t: Sys)
    requires PushesOk(s) && t.mem == s.mem && t.pushes == s.pushes && t.disk == s.disk && t.nextId == s.nextId
      && t.accepted == s.accepted
    ensures PushesOk(t) && forall n <- t.pushes :: PushOk(t, n, t.pushes[n])
  {
    hide Name, TmpName;
  }

  lemma DrainStepDrains(s: Sys, a: Action)
    requires Inv(s) && Enabled(s, a)
    requires a.Pick? || a.Load? || a.Retry? || a.Forward?
    ensures DrainsOk(Next(s, a))
  {
    hide Name, TmpName, Sum, PushesOk, NothingLost, FilesNumbered, Booked;
    var t := Next(s, a);
    if a.Pick? { assert a.seqNo !in s.pushes by { PendingNotPushed(s, a.seqNo); } }
    forall d <- t.drains ensures DrainOk(t, t.drains[d]) {
      if d in s.drains { assert DrainOk(s, s.drains[d]); }
    }
  }

  lemma PendingNotPushed(s: Sys, n: nat)
    requires PushesOk(s) && n in s.mem.pending
    ensures n !in s.pushes
  {
    hide Name, TmpName;
  }

  lemma DrainNext(s: Sys, a: Action)
    requires DrainsOk(s) && Enabled(s, a)
    requires a.Pick? || a.Load? || a.Retry? || a.Forward?
    ensures var t := Next(s, a);
      && s.up && t == s.(drains := t.drains, forwarded := t.forwarded, delivered := t.delivered)
      && s.forwarded <= t.forwarded && s.delivered <= t.delivered
      && forall k <- t.delivered :: k in s.delivered || k < s.mem.nextSeq
  {
    hide Name, TmpName, Oldest;
    if a.Forward? { assert DrainOk(s, s.drains[a.drainer]); }
  }

  lemma DrainKeeps(s: Sys, a: Action)
    requires Inv(s) && Enabled(s, a)
    requires a.Pick? || a.Load? || a.Retry? || a.Forward?
    ensures Inv(Next(s, a))
  {
    hide *;
    EnabledUp(s, a);
    InvParts(s);
    DrainNext(s, a);
    DrainStepDrains(s, a);
    DrainerKeeps(s, Next(s, a));
  }

  lemma EnabledUp(s: Sys, a: Action)
    requires Enabled(s, a) && !a.Open?
    ensures s.up
  {
  }

  lemma UnlinkHolds(s: Sys, d: nat, removed: bool)
    requires Inv(s) && Enabled(s, Unlink(d, removed))
    ensures NothingLost(Next(s, Unlink(d, removed))) && FilesNumbered(Next(s, Unlink(d, removed)))
  {
    hide Name, TmpName, ParseSeq, Sum, PushesOk, Booked;
    NamesApart();
    var t := Next(s, Unlink(d, removed));
    assert DrainOk(s, s.drains[d]);
    forall id <- t.accepted ensures Safe(t, id) { assert Safe(s, id); }
  }

  lemma UnlinkDrains(s: Sys, d: nat, removed: bool)
    requires Inv(s) && Enabled(s, Unlink(d, removed))
    ensures DrainsOk(Next(s, Unlink(d, removed)))
  {
    hide Name, TmpName, ParseSeq, Sum, PushesOk, NothingLost, FilesNumbered, Booked;
    var t := Next(s, Unlink(d, removed));
    forall k <- t.drains ensures DrainOk(t, t.drains[k]) { assert DrainOk(s, s.drains[k]); }
  }

  lemma UnlinkPushes(s: Sys, d: nat, removed: bool)
    requires Inv(s) && Enabled(s, Unlink(d, removed))
    ensures PushesOk(Next(s, Unlink(d, removed)))
  {
    hide Name, TmpName, ParseSeq, Sum, NothingLost, FilesNumbered, Booked;
    NamesApart();
    var t := Next(s, Unlink(d, removed));
    assert DrainOk(s, s.drains[d]);
    hide DrainOk, DrainsOk;
    forall n <- t.pushes ensures PushOk(t, n, t.pushes[n]) { assert PushOk(s, n, s.pushes[n]); }
  }

  lemma UnlinkKeeps(s: Sys, d: nat, removed: bool)
    requires Inv(s) && Enabled(s, Unlink(d, removed))
    ensures Inv(Next(s, Unlink(d, removed)))
  {
    UnlinkHolds(s, d, removed);
    UnlinkDrains(s, d, removed);
    UnlinkPushes(s, d, removed);
    hide Name, TmpName, ParseSeq, Sum, NothingLost, FilesNumbered, PushesOk, DrainsOk, MemoryOk;
    MemorySame(s, Next(s, Unlink(d, removed)));
  }

  lemma ForgetNext(s: Sys, d: nat)
    requires Enabled(s, ForgetSent(d))
    ensures s.up && d in s.drains && s.drains[d].stage.Unlinked?
    ensures var t, n := Next(s, ForgetSent(d)), s.drains[d].seqNo;
      && t == s.(mem := t.mem, drains := s.drains - {d})
      && t.mem.pending == s.mem.pending - {n} && t.mem.nextSeq == s.mem.nextSeq
      && t.mem.totalBytes
      == if n in s.mem.pending then SaturatingSub(s.mem.totalBytes, s.drains[d].len) else s.mem.totalBytes
  {
    var n := s.drains[d].seqNo;
    if n !in s.mem.pending { assert s.mem.pending - {n} == s.mem.pending; }
  }

  lemma ForgetBooks(s: Sys, d: nat)
    requires MemoryOk(s) && DrainsOk(s) && Enabled(s, ForgetSent(d))
    ensures MemoryOk(Next(s, ForgetSent(d)))
    ensures d in s.drains && (s.drains[d].seqNo in s.mem.pending ==> s.mem.totalBytes >= s.drains[d].len)
  {
    hide Name, Sum, Enabled, Next;
    ForgetNext(s, d);
    assert DrainOk(s, s.drains[d]);
    var n := s.drains[d].seqNo;
    if n in s.mem.pending {
      SumRemove(s.mem.pending, n, s.mem.nextSeq);
    } else {
      assert s.mem.pending - {n} == s.mem.pending;
    }
  }

  lemma ForgetOthers(s: Sys, d: nat)
    requires PushesOk(s) && DrainsOk(s) && Enabled(s, ForgetSent(d))
    ensures PushesOk(Next(s, ForgetSent(d))) && DrainsOk(Next(s, ForgetSent(d)))
  {
    hide Name, TmpName, Enabled, Next;
    ForgetNext(s, d);
  }

  lemma ForgetKeeps(s: Sys, d: nat)
    requires Inv(s) && Enabled(s, ForgetSent(d))
    ensures Inv(Next(s, ForgetSent(d)))
    ensures d in s.drains && (s.drains[d].seqNo in s.mem.pending ==> s.mem.totalBytes >= s.drains[d].len)
  {
    hide *;
    var t := Next(s, ForgetSent(d));
    ForgetNext(s, d);
    InvParts(s);
    ForgetBooks(s, d);
    ForgetOthers(s, d);
    SameDisk(s.disk);
    FilesThrough(s, t);
    HeldThrough(s, t);
    InvFrom(t);
  }

  lemma RestartKeeps(s: Sys, a: Action)
    requires Inv(s) && Enabled(s, a) && (a.Crash? || a.Open?)
    ensures Inv(Next(s, a))
  {
    hide Name, TmpName, ParseSeq, Sum;
    NamesApart();
    var t := Next(s, a);
    HeldThrough(s, t);
    if a.Open? {
      assert Reserving(t.pushes) == map[];
      NothingReserved(a.mem.nextSeq);
      forall n: nat | n < U64 && Name(n) in t.disk ensures n < t.mem.nextSeq {
        assert ParseSeq(Name(n)) == Some(n);
      }
    }
  }

  lemma {:induction false} NothingReserved(n: nat)
    ensures Sum(map[], n) == 0
  {
    if n > 0 { NothingReserved(n - 1); }
  }

  lemma StepKeeps(s: Sys, a: Action)
    requires Inv(s) && Enabled(s, a)
    ensures Inv(Next(s, a))
  {
    match a {
      case ReservePush(data) => ReserveKeeps(s, data);
      case WriteTmp(n, part) =>
        TmpWriteKeeps(s, n, File(part, s.pushes[n].file.id), Reserved);
        assert s.pushes[n := s.pushes[n].(stage := Reserved)] == s.pushes;
      case SyncTmp(n) => TmpWriteKeeps(s, n, s.pushes[n].file, Synced);
      case Rename(n) => RenameKeeps(s, n);
      case FailPush(n) => FailKeeps(s, n);
      case CommitPush(n) => CommitKeeps(s, n);
      case RollBack(n) => RollBackKeeps(s, n);
      case DirectForward(data) => DirectKeeps(s, data);
      case Unlink(d, removed) => UnlinkKeeps(s, d, removed);
      case ForgetSent(d) => ForgetKeeps(s, d);
      case Crash(_) => RestartKeeps(s, a);
      case Open(_, _) => RestartKeeps(s, a);
      case _ => DrainKeeps(s, a);
    }
  }

  // ----- whole runs

  /** The steps of `run`, in order, lead from `s` to `t`. */
  ghost predicate Reaches(s: Sys, run: seq<Action>, t: Sys)
    decreases run
  {
    if run == [] then t == s
    else Enabled(s, run[0]) && Reaches(Next(s, run[0]), run[1..], t)
  }

  lemma {:induction false} RunKeeps(s: Sys, run: seq<Action>, t: Sys)
    requires Inv(s) && Reaches(s, run, t)
    ensures Inv(t)
    decreases run
  {
    hide Inv, Enabled, Next;
    if run != [] {
      StepKeeps(s, run[0]);
      RunKeeps(Next(s, run[0]), run[1..], t);
    }
  }

  /** Over any run of interleaved pushes, drains, I/O failures, crashes and reopens, every
      accepted payload was forwarded, or is on disk with its own bytes under the name of the
      sequence its push returned. */
  lemma NoAcceptedPayloadIsLost(s: Sys, run: seq<Action>, t: Sys)
    requires Initial(s) && Reaches(s, run, t)
    ensures forall id <- t.accepted :: Payload(t, id) in t.forwarded || Held(t, id)
  {
    hide Name, Held;
    InitialOk(s);
    RunKeeps(s, run, t);
  }

  // ----- published files

  /** The published file `n` is as it was, or is gone after the destination acknowledged it. */
  ghost predicate Spares(s: Sys, t: Sys, n: nat) {
    Name(n) in s.disk ==>
      && (Name(n) in t.disk ==> t.disk[Name(n)] == s.disk[Name(n)])
      && (Name(n) !in t.disk ==> s.disk[Name(n)] in s.forwarded)
  }

  lemma SameSpares(s: Sys, t: Sys, n: nat)
    requires n < U64 && SamePublished(s.disk, t.disk)
    ensures Spares(s, t, n)
  {
    hide Name, ParseSeq;
    ParseOfName(n);
  }

  lemma RenameSpares(s: Sys, k: nat, n: nat)
    requires Inv(s) && Enabled(s, Rename(k)) && n < U64
    ensures Spares(s, Next(s, Rename(k)), n)
  {
    RenameKeeps(s, k);
    hide Name, TmpName, Inv;
    NamesApart();
    assert k < U64;
  }

  lemma UnlinkSpares(s: Sys, d: nat, removed: bool, n: nat)
    requires Inv(s) && Enabled(s, Unlink(d, removed)) && n < U64
    ensures Spares(s, Next(s, Unlink(d, removed)), n)
  {
    assert DrainOk(s, s.drains[d]) && s.drains[d].seqNo < U64;
    hide Name, TmpName, Inv, ParseSeq;
    NamesApart();
  }

  lemma StepSpares(s: Sys, a: Action, n: nat)
    requires Inv(s) && Enabled(s, a) && n < U64
    ensures Spares(s, Next(s, a), n)
  {
    hide Name, TmpName, ParseSeq, Inv, Spares, SamePublished;
    match a {
      case WriteTmp(k, part) =>
        PushedBelow(s, k);
        TmpIsNotPublished(s, k, File(part, s.pushes[k].file.id));
        SameSpares(s, Next(s, a), n);
      case SyncTmp(k) =>
        PushedBelow(s, k);
        TmpIsNotPublished(s, k, s.pushes[k].file);
        SameSpares(s, Next(s, a), n);
      case Rename(k) => RenameSpares(s, k, n);
      case Unlink(d, removed) => UnlinkSpares(s, d, removed, n);
      case Crash(_) => SameSpares(s, Next(s, a), n);
      case Open(_, _) => SameSpares(s, Next(s, a), n);
      case _ =>
        SameDisk(s.disk);
        SameSpares(s, Next(s, a), n);
    }
  }

  lemma PushedBelow(s: Sys, k: nat)
    requires Inv(s) && s.up && k in s.pushes
    ensures k < U64
  {
    hide Name, TmpName, NothingLost, FilesNumbered, DrainsOk, Booked;
  }

  /** No step ever writes over a published file: it leaves each one alone, or removes one whose
      payload the destination has acknowledged. */
  lemma PublishedFilesAreNeverOverwritten(s: Sys, run: seq<Action>, t: Sys, a: Action, n: nat)
    requires Initial(s) && Reaches(s, run, t) && Enabled(t, a)
    requires n < U64 && Name(n) in t.disk
    ensures Name(n) in Next(t, a).disk ==> Next(t, a).disk[Name(n)] == t.disk[Name(n)]
    ensures Name(n) !in Next(t, a).disk ==> t.disk[Name(n)] in t.forwarded
  {
    hide Name, Inv, Enabled, Next;
    InitialOk(s);
    RunKeeps(s, run, t);
    StepSpares(t, a, n);
  }

  // ----- what an acknowledgement rests on

  /** The step that lets the sender be told its payload is accepted: a direct delivery, or the
      commit of a push of that payload. */
  predicate Settles(s: Sys, a: Action, payload: bytes) {
    || a == DirectForward(payload)
    || (a.CommitPush? && a.seqNo in s.pushes && s.pushes[a.seqNo].file.data == payload)
  }

  function SettledAs(a: Action): Option<nat> {
    if a.CommitPush? then Some(a.seqNo) else None
  }

  lemma StepReceipts(s: Sys, a: Action)
    requires Inv(s) && Enabled(s, a)
    ensures forall id <- s.accepted :: id in Next(s, a).accepted && Next(s, a).accepted[id] == s.accepted[id]
  {
    hide Name, TmpName, ParseSeq, Sum, NothingLost, DrainsOk, MemoryOk, FilesNumbered;
  }

  /** A receipt is never withdrawn or altered, by any step, crash or reopening. */
  lemma {:induction false} ReceiptsStay(s: Sys, run: seq<Action>, t: Sys, id: nat)
    requires Inv(s) && Reaches(s, run, t) && id in s.accepted
    ensures id in t.accepted && t.accepted[id] == s.accepted[id]
    decreases run
  {
    hide Inv, Enabled, Next;
    if run != [] {
      StepKeeps(s, run[0]);
      StepReceipts(s, run[0]);
      ReceiptsStay(Next(s, run[0]), run[1..], t, id);
    }
  }

  lemma SettledReceipt(s: Sys, a: Action, payload: bytes) returns (id: nat)
    requires Inv(s) && Enabled(s, a) && Settles(s, a, payload)
    ensures id !in s.accepted && id in Next(s, a).accepted
    ensures Next(s, a).accepted[id] == Receipt(payload, SettledAs(a))
  {
    hide Name, TmpName, ParseSeq, Sum, NothingLost, DrainsOk, MemoryOk, FilesNumbered;
    id := if a.CommitPush? then s.pushes[a.seqNo].file.id else s.nextId;
  }

  /** From the settling step on, whatever happens, that very payload was forwarded or is on disk
      under the sequence the step returned. */
  lemma SettledIsKept(s: Sys, before: seq<Action>, t: Sys, a: Action, after: seq<Action>, u: Sys, payload: bytes)
    returns (id: nat)
    requires Initial(s) && Reaches(s, before, t)
    requires Enabled(t, a) && Settles(t, a, payload) && Reaches(Next(t, a), after, u)
    ensures id !in t.accepted && id in u.accepted && u.accepted[id] == Receipt(payload, SettledAs(a))
    ensures File(payload, id) in u.forwarded || (a.CommitPush? && HeldAs(u.disk, a.seqNo, File(payload, id)))
  {
    hide Name, Inv, Enabled, Next, HeldAs, Initial;
    InitialOk(s);
    RunKeeps(s, before, t);
    id := SettledReceipt(t, a, payload);
    StepKeeps(t, a);
    ReceiptsStay(Next(t, a), after, u, id);
    RunKeeps(Next(t, a), after, u);
    InvSafe(u, id);
  }

  lemma InvSafe(s: Sys, id: nat)
    requires Inv(s) && id in s.accepted
    ensures Safe(s, id)
  {
    hide Safe, FilesNumbered, PushesOk, DrainsOk, MemoryOk;
  }

  /** The byte count is exactly what is pending plus what is reserved, and is bounded; so neither
      saturating subtraction ever saturates, with any number of drainers. */
  lemma AccountingIsExact(s: Sys, run: seq<Action>, t: Sys)
    requires Initial(s) && Reaches(s, run, t) && t.up
    ensures t.mem.totalBytes == Booked(t)
    ensures t.mem.totalBytes <= Max(t.maxBytes, t.recovered)
    ensures forall n <- t.pushes | t.pushes[n].stage.Failed? :: t.mem.totalBytes >= |t.pushes[n].file.data|
    ensures forall d <- t.drains | t.drains[d].stage.Unlinked? && t.drains[d].seqNo in t.mem.pending ::
      t.mem.totalBytes >= t.drains[d].len
  {
    hide Name, TmpName, ParseSeq, Sum, Booked;
    InitialOk(s);
    RunKeeps(s, run, t);
    forall n <- t.pushes | t.pushes[n].stage.Failed? ensures t.mem.totalBytes >= |t.pushes[n].file.data| {
      RollBackKeeps(t, n);
    }
    forall d <- t.drains | t.drains[d].stage.Unlinked? && t.drains[d].seqNo in t.mem.pending
      ensures t.mem.totalBytes >= t.drains[d].len
    {
      ForgetKeeps(t, d);
    }
  }

  /** A push is taken whenever it fits beside all that is pending or in flight, and only then. */
  lemma FittingPushIsTaken(s: Sys, run: seq<Action>, t: Sys, data: bytes)
    requires Initial(s) && Reaches(s, run, t) && t.up && t.mem.nextSeq + 1 < U64
    ensures Enabled(t, ReservePush(data)) <==>
      Sum(t.mem.pending, t.mem.nextSeq) + Sum(Reserving(t.pushes), t.mem.nextSeq) + |data| <= t.maxBytes
  {
    hide Name, TmpName, ParseSeq, Sum;
    InitialOk(s);
    RunKeeps(s, run, t);
  }

  lemma Runs(s: Sys, a: Action, later: seq<Action>, t: Sys, run: seq<Action>)
    requires Enabled(s, a) && Reaches(Next(s, a), later, t) && run == [a] + later
    ensures Reaches(s, run, t)
  {
    hide Enabled, Next;
    assert run[1..] == later;
  }

  /** Left alone, a push that fits goes through: its sender gets the next sequence, its bytes are
      published under it, and it counts against the cap. */
  lemma FittingPushGoesThrough(s: Sys, run: seq<Action>, t: Sys, data: bytes) returns (u: Sys)
    requires Initial(s) && Reaches(s, run, t) && t.up && t.mem.nextSeq + 1 < U64
    requires Sum(t.mem.pending, t.mem.nextSeq) + Sum(Reserving(t.pushes), t.mem.nextSeq) + |data| <= t.maxBytes
    ensures var n := t.mem.nextSeq;
      && Reaches(t, [ReservePush(data), SyncTmp(n), Rename(n), CommitPush(n)], u)
      && u.accepted == t.accepted[t.nextId := Receipt(data, Some(n))]
      && Name(n) in u.disk && u.disk[Name(n)].data == data
      && u.mem == Memory(n + 1, t.mem.totalBytes + |data|, t.mem.pending[n := |data|])
  {
    hide Name, TmpName, ParseSeq, Sum, Inv, Reaches;
    var n := t.mem.nextSeq;
    FittingPushIsTaken(s, run, t, data);
    var t1 := Next(t, ReservePush(data));
    var t2 := Next(t1, SyncTmp(n));
    var t3 := Next(t2, Rename(n));
    u := Next(t3, CommitPush(n));
    NoSteps(u);
    Runs(t3, CommitPush(n), [], u, [CommitPush(n)]);
    Runs(t2, Rename(n), [CommitPush(n)], u, [Rename(n), CommitPush(n)]);
    Runs(t1, SyncTmp(n), [Rename(n), CommitPush(n)], u, [SyncTmp(n), Rename(n), CommitPush(n)]);
    Runs(t, ReservePush(data), [SyncTmp(n), Rename(n), CommitPush(n)], u,
         [ReservePush(data), SyncTmp(n), Rename(n), CommitPush(n)]);
  }

  lemma NoSteps(s: Sys)
    ensures Reaches(s, [], s)
  {
  }

  /** Left alone, a drainer delivers the oldest pending payload that is on disk, and gives back
      exactly the room it took. */
  lemma DrainGoesThrough(s: Sys, run: seq<Action>, t: Sys, d: nat, n: nat) returns (u: Sys)
    requires Initial(s) && Reaches(s, run, t) && t.up && d !in t.drains
    requires n in t.mem.pending && (forall k <- t.mem.pending :: n <= k) && Name(n) in t.disk
    ensures Reaches(t, [Pick(d, n), Load(d), Forward(d), Unlink(d, true), ForgetSent(d)], u)
    ensures t.disk[Name(n)] in u.forwarded && Name(n) !in u.disk
    ensures u.mem.pending == t.mem.pending - {n} && u.mem.nextSeq == t.mem.nextSeq
    ensures u.mem.totalBytes + t.mem.pending[n] == t.mem.totalBytes
  {
    hide Name, TmpName, ParseSeq, Sum, Inv, Reaches;
    InitialOk(s);
    RunKeeps(s, run, t);
    PendingIsBooked(t, n);
    var sent := t.(drains := t.drains[d := Drain(n, t.mem.pending[n], Sent(t.disk[Name(n)]))],
                   forwarded := t.forwarded + {t.disk[Name(n)]}, delivered := t.delivered + {n});
    u := DrainEnds(sent, d);
    var ending := [Unlink(d, true), ForgetSent(d)];
    DrainStarts(t, d, n, sent, ending, u);
    assert [Pick(d, n), Load(d), Forward(d)] + ending
      == [Pick(d, n), Load(d), Forward(d), Unlink(d, true), ForgetSent(d)];
  }

  lemma DrainEnds(s: Sys, d: nat) returns (u: Sys)
    requires s.up && d in s.drains && s.drains[d].stage.Sent? && s.drains[d].seqNo in s.mem.pending
    ensures Reaches(s, [Unlink(d, true), ForgetSent(d)], u)
    ensures u.forwarded == s.forwarded && u.disk == s.disk - {Name(s.drains[d].seqNo)}
    ensures u.mem == Memory(s.mem.nextSeq, SaturatingSub(s.mem.totalBytes, s.drains[d].len),
                            s.mem.pending - {s.drains[d].seqNo})
  {
    hide Name, TmpName, ParseSeq, Sum, Reaches;
    var s1 := Next(s, Unlink(d, true));
    u := Next(s1, ForgetSent(d));
    NoSteps(u);
    Runs(s1, ForgetSent(d), [], u, [ForgetSent(d)]);
    Runs(s, Unlink(d, true), [ForgetSent(d)], u, [Unlink(d, true), ForgetSent(d)]);
  }

  lemma DrainStarts(t: Sys, d: nat, n: nat, sent: Sys, later: seq<Action>, u: Sys)
    requires t.up && d !in t.drains && Oldest(t.mem, n) && Name(n) in t.disk && Reaches(sent, later, u)
    requires sent == t.(drains := t.drains[d := Drain(n, t.mem.pending[n], Sent(t.disk[Name(n)]))],
                        forwarded := t.forwarded + {t.disk[Name(n)]}, delivered := t.delivered + {n})
    ensures Reaches(t, [Pick(d, n), Load(d), Forward(d)] + later, u)
  {
    hide Name, TmpName, ParseSeq, Sum, Reaches;
    var t1, t2 := DrainStates(t, d, n, sent);
    hide Enabled, Next;
    Runs(t2, Forward(d), later, u, [Forward(d)] + later);
    Runs(t1, Load(d), [Forward(d)] + later, u, [Load(d), Forward(d)] + later);
    Runs(t, Pick(d, n), [Load(d), Forward(d)] + later, u, [Pick(d, n), Load(d), Forward(d)] + later);
  }

  lemma DrainStates(t: Sys, d: nat, n: nat, sent: Sys) returns (t1: Sys, t2: Sys)
    requires t.up && d !in t.drains && Oldest(t.mem, n) && Name(n) in t.disk
    requires sent == t.(drains := t.drains[d := Drain(n, t.mem.pending[n], Sent(t.disk[Name(n)]))],
                        forwarded := t.forwarded + {t.disk[Name(n)]}, delivered := t.delivered + {n})
    ensures Enabled(t, Pick(d, n)) && t1 == Next(t, Pick(d, n))
    ensures Enabled(t1, Load(d)) && t2 == Next(t1, Load(d))
    ensures Enabled(t2, Forward(d)) && sent == Next(t2, Forward(d))
  {
    hide Name, TmpName, ParseSeq, Sum;
    var len, f := t.mem.pending[n], t.disk[Name(n)];
    t1 := t.(drains := t.drains[d := Drain(n, len, Picked)]);
    t2 := t.(drains := t.drains[d := Drain(n, len, Loaded(f))]);
    assert t.drains[d := Drain(n, len, Picked)][d := Drain(n, len, Loaded(f))]
      == t.drains[d := Drain(n, len, Loaded(f))];
    assert t.drains[d := Drain(n, len, Loaded(f))][d := Drain(n, len, Sent(f))]
      == t.drains[d := Drain(n, len, Sent(f))];
  }

  lemma PendingIsBooked(t: Sys, n: nat)
    requires Inv(t) && t.up && n in t.mem.pending
    ensures t.mem.pending[n] <= t.mem.totalBytes
  {
    hide Name, TmpName, ParseSeq, Sum, PushesOk, DrainsOk, NothingLost, FilesNumbered;
    SumRemove(t.mem.pending, n, t.mem.nextSeq);
  }

  /** Delivery order: when a sequence is picked, every earlier one recovered or committed by then
      has already been delivered; so a later payload overtakes only one not yet committed. */
  lemma PicksAreOldestFirst(s: Sys, run: seq<Action>, t: Sys, d: nat, n: nat)
    requires Initial(s) && Reaches(s, run, t) && Enabled(t, Pick(d, n))
    ensures forall k <- t.settled | k < n :: k in t.delivered
  {
    hide Name, TmpName, ParseSeq, Sum;
    InitialOk(s);
    RunKeeps(s, run, t);
  }

  lemma OpenFinds(t: Sys, mem: Memory, disk: Disk)
    requires Enabled(t, Open(mem, disk))
    ensures forall n: nat | n < U64 :: n in mem.pending <==> Name(n) in t.disk
    ensures forall n <- mem.pending :: Name(n) in t.disk && mem.pending[n] == |t.disk[Name(n)].data| && n < mem.nextSeq
  {
    hide Name, TmpName, ParseSeq, Sum;
    NamesApart();
    forall n: nat | n < U64 && Name(n) in t.disk ensures n in mem.pending && mem.pending[n] == |t.disk[Name(n)].data| {
      assert ParseSeq(Name(n)) == Some(n);
    }
  }

  /** After a crash at any step, opening finds exactly the published files, above which the
      sequence resumes, and every accepted payload not yet forwarded is pending again. */
  lemma RecoveryIsExact(s: Sys, run: seq<Action>, t: Sys, mem: Memory, disk: Disk)
    requires Initial(s) && Reaches(s, run, t) && Enabled(t, Open(mem, disk))
    ensures forall n: nat | n < U64 :: n in mem.pending <==> Name(n) in t.disk
    ensures forall n <- mem.pending :: Name(n) in t.disk && mem.pending[n] == |t.disk[Name(n)].data| && n < mem.nextSeq
    ensures forall id <- t.accepted | Payload(t, id) !in t.forwarded ::
      t.accepted[id].seqNo.Some? && t.accepted[id].seqNo.value in mem.pending && Held(t, id)
  {
    hide Name, TmpName, ParseSeq, Sum, Enabled;
    OpenFinds(t, mem, disk);
    NoAcceptedPayloadIsLost(s, run, t);
  }

  // ----- the code of the critical sections, of recovery, and of the drain loop

  datatype PushError = Full(current: nat, max: nat) | Io

  class SpoolState {
    const maxBytes: nat
    var nextSeq: nat
    var totalBytes: nat
    var pending: map<nat, nat>

    function Value(): Memory
      reads this
    {
      Memory(nextSeq, totalBytes, pending)
    }

    constructor (maxBytes: nat, m: Memory)
      ensures this.maxBytes == maxBytes && Value() == m
    {
      this.maxBytes := maxBytes;
      nextSeq, totalBytes, pending := m.nextSeq, m.totalBytes, m.pending;
    }

    /** Reserve under the cap; a full spool is refused, and nothing is evicted for it. */
    method ReserveSeq(len: nat) returns (r: Result<nat, PushError>)
      modifies this
      ensures r.Ok? <==> old(totalBytes) + len <= maxBytes
      ensures r.Ok? ==> r.value == old(nextSeq) && nextSeq == r.value + 1 && totalBytes == old(totalBytes) + len
      ensures r.Err? ==> nextSeq == old(nextSeq) && totalBytes == old(totalBytes)
      ensures pending == old(pending)
      ensures if Fits(old(Value()), maxBytes, len) then r == Ok(old(nextSeq)) && Value() == Reserve(old(Value()), len)
              else r == Err(Full(old(totalBytes), maxBytes)) && Value() == old(Value())
    {
      if totalBytes + len > maxBytes {
        return Err(Full(totalBytes, maxBytes));
      }
      var seqNo := nextSeq;
      nextSeq := nextSeq + 1;
      totalBytes := totalBytes + len;
      return Ok(seqNo);
    }

    method CommitSeq(seqNo: nat, len: nat)
      modifies this
      ensures Value() == Commit(old(Value()), seqNo, len)
    {
      pending := pending[seqNo := len];
    }

    method ReleaseBytes(len: nat)
      modifies this
      ensures Value() == Release(old(Value()), len)
    {
      totalBytes := SaturatingSub(totalBytes, len);
    }

    method PickOldest() returns (r: Option<(nat, nat)>)
      ensures r.None? <==> pending == map[]
      ensures r.Some? ==> Oldest(Value(), r.value.0) && r.value.1 == pending[r.value.0]
    {
      if pending == map[] {
        return None;
      }
      ghost var least := LeastKey(pending.Keys);
      var n :| n in pending && forall k <- pending.Keys :: n <= k;
      return Some((n, pending[n]));
    }

    method ForgetSeq(seqNo: nat, len: nat)
      modifies this
      ensures Value() == Forget(old(Value()), seqNo, len)
    {
      if seqNo in pending {
        pending := pending - {seqNo};
        totalBytes := SaturatingSub(totalBytes, len);
      }
    }
  }

  lemma {:induction false} LeastKey(keys: set<nat>) returns (n: nat)
    requires keys != {}
    ensures n in keys && forall k <- keys :: n <= k
    decreases |keys|
  {
    n :| n in keys;
    var others := keys - {n};
    if others != {} {
      var m := LeastKey(others);
      assert keys == others + {n};
      n := if n <= m then n else m;
    } else {
      assert keys == {n};
    }
  }

  /** A directory entry; `readable` says whether asking for its length succeeds. */
  datatype Entry = Entry(name: string, len: nat, readable: bool)

  /** `entries` lists files of the directory, each once, in whatever order it is read. */
  ghost predicate Lists(entries: seq<Entry>, disk: Disk) {
    && (forall e <- entries :: e.name in disk && e.len == |disk[e.name].data|)
    && forall i, j | 0 <= i < j < |entries| :: entries[i].name != entries[j].name
  }

  ghost predicate Exhausts(entries: seq<Entry>, disk: Disk) {
    forall name <- disk :: exists e <- entries :: e.name == name
  }

  predicate Found(e: Entry, pending: map<nat, nat>) {
    ParseSeq(e.name).Some? ==> ParseSeq(e.name).value in pending && pending[ParseSeq(e.name).value] == e.len
  }

  ghost predicate FoundBefore(entries: seq<Entry>, i: nat, k: nat)
    requires i <= |entries|
  {
    k < U64 && exists j: nat :: j < i && entries[j].name == Name(k)
  }

  /** The memory holds exactly the published files among the first `i` entries. */
  ghost predicate Scanned(entries: seq<Entry>, i: nat, m: Memory)
    requires i <= |entries|
  {
    && (forall j | 0 <= j < i :: Found(entries[j], m.pending))
    && (forall k <- m.pending :: k < m.nextSeq && FoundBefore(entries, i, k))
    && (m.nextSeq == 0 || m.nextSeq - 1 in m.pending)
    && m.totalBytes == Sum(m.pending, m.nextSeq)
  }

  function Counted(m: Memory, n: nat, len: nat): Memory {
    Memory(if m.nextSeq > n + 1 then m.nextSeq else n + 1, m.totalBytes + len, m.pending[n := len])
  }

  lemma NotYetCounted(entries: seq<Entry>, i: nat, m: Memory, disk: Disk)
    requires Lists(entries, disk) && i < |entries| && Scanned(entries, i, m) && ParseSeq(entries[i].name).Some?
    ensures var n := ParseSeq(entries[i].name).value;
      n < U64 && entries[i].name == Name(n) && n !in m.pending
  {
    hide ParseSeq, Sum, EndsWith, Name;
    NameOfParse(entries[i].name);
    assert !FoundBefore(entries, i, ParseSeq(entries[i].name).value);
  }

  lemma CountedFound(entries: seq<Entry>, i: nat, m: Memory)
    requires i < |entries| && Scanned(entries, i, m) && ParseSeq(entries[i].name).Some?
    requires ParseSeq(entries[i].name).value !in m.pending
    ensures forall j | 0 <= j < i + 1 ::
      Found(entries[j], Counted(m, ParseSeq(entries[i].name).value, entries[i].len).pending)
  {
    hide ParseSeq, Sum, EndsWith, Name, FoundBefore;
  }

  lemma CountedBefore(entries: seq<Entry>, i: nat, m: Memory, n: nat)
    requires i < |entries| && Scanned(entries, i, m) && n < U64 && entries[i].name == Name(n)
    ensures FoundBefore(entries, i + 1, n) && forall k <- m.pending :: FoundBefore(entries, i + 1, k)
  {
    hide ParseSeq, Sum, EndsWith, Name, Found;
    forall k <- m.pending ensures FoundBefore(entries, i + 1, k) {
      assert FoundBefore(entries, i, k);
    }
  }

  lemma ScanPublished(entries: seq<Entry>, i: nat, m: Memory, disk: Disk)
    requires Lists(entries, disk) && i < |entries| && Scanned(entries, i, m) && ParseSeq(entries[i].name).Some?
    ensures Scanned(entries, i + 1, Counted(m, ParseSeq(entries[i].name).value, entries[i].len))
  {
    hide ParseSeq, Sum, EndsWith, Name, Found, FoundBefore, Lists;
    var e, n := entries[i], ParseSeq(entries[i].name).value;
    NotYetCounted(entries, i, m, disk);
    CountedFound(entries, i, m);
    CountedBefore(entries, i, m, n);
    var t := Counted(m, n, e.len);
    SumBeyond(m.pending, m.nextSeq, t.nextSeq);
    SumInsert(m.pending, n, e.len, t.nextSeq);
  }

  lemma ScanOther(entries: seq<Entry>, i: nat, m: Memory)
    requires i < |entries| && Scanned(entries, i, m) && ParseSeq(entries[i].name).None?
    ensures Scanned(entries, i + 1, m)
  {
    hide ParseSeq, Sum, EndsWith, Name;
    forall k <- m.pending ensures FoundBefore(entries, i + 1, k) {
      assert FoundBefore(entries, i, k);
    }
  }

  lemma ScanStart(entries: seq<Entry>)
    ensures Scanned(entries, 0, Memory(0, 0, map[]))
  {
  }

  lemma ScanRecovers(entries: seq<Entry>, m: Memory, disk: Disk)
    requires Lists(entries, disk) && Exhausts(entries, disk) && Scanned(entries, |entries|, m)
    ensures Recovers(disk, m)
  {
    hide ParseSeq, Sum, Name;
    forall name <- disk | ParseSeq(name).Some?
      ensures ParseSeq(name).value in m.pending && m.pending[ParseSeq(name).value] == |disk[name].data|
    {
      var e :| e in entries && e.name == name;
      var j :| 0 <= j < |entries| && entries[j] == e;
      assert Found(entries[j], m.pending);
    }
    forall k <- m.pending ensures k < U64 && Name(k) in disk {
      assert FoundBefore(entries, |entries|, k);
      var j: nat :| j < |entries| && entries[j].name == Name(k);
      assert entries[j] in entries;
    }
  }

  /** The names swept are the partial files among the first `i` entries. */
  ghost predicate Swept(swept: seq<string>, entries: seq<Entry>, i: nat)
    requires i <= |entries|
  {
    && (forall name <- swept :: EndsWith(name, ".tmp") && exists j: nat :: j < i && entries[j].name == name)
    && forall j: nat | j < i && EndsWith(entries[j].name, ".tmp") :: entries[j].name in swept
  }

  lemma SweepNone(entries: seq<Entry>)
    ensures Swept([], entries, 0)
  {
  }

  lemma SweepNext(swept: seq<string>, entries: seq<Entry>, i: nat)
    requires i < |entries| && Swept(swept, entries, i)
    ensures Swept(if EndsWith(entries[i].name, ".tmp") then swept + [entries[i].name] else swept, entries, i + 1)
  {
    hide EndsWith;
  }

  lemma SweptAll(swept: seq<string>, entries: seq<Entry>, disk: Disk)
    requires Lists(entries, disk) && Exhausts(entries, disk) && Swept(swept, entries, |entries|)
    ensures forall name :: name in swept <==> name in disk && EndsWith(name, ".tmp")
  {
    hide EndsWith;
    forall name ensures name in swept <==> name in disk && EndsWith(name, ".tmp") {
      if name in disk {
        var e :| e in entries && e.name == name;
        var j: nat :| j < |entries| && entries[j] == e;
        assert entries[j].name == name;
      }
    }
  }

  lemma SweptSome(swept: seq<string>, entries: seq<Entry>, i: nat, disk: Disk)
    requires i <= |entries| && Lists(entries, disk) && Swept(swept, entries, i)
    ensures forall name <- swept :: name in disk && EndsWith(name, ".tmp")
  {
    hide EndsWith;
    forall name <- swept ensures name in disk {
      var j: nat :| j < i && entries[j].name == name;
      assert entries[j] in entries;
    }
  }

  /** Every published entry among the first `i` could be measured. */
  predicate Measured(entries: seq<Entry>, i: nat)
    requires i <= |entries|
  {
    forall j | 0 <= j < i && ParseSeq(entries[j].name).Some? :: entries[j].readable
  }

  /** The recovery scan: exactly the partial files are swept, exactly the published re-counted.
      It gives up exactly when the listing breaks off or a published file cannot be measured. */
  method Recover(entries: seq<Entry>, complete: bool, ghost disk: Disk)
    returns (r: Result<Memory, PushError>, swept: seq<string>)
    requires Lists(entries, disk) && (complete ==> Exhausts(entries, disk))
    ensures r.Ok? <==> complete && Measured(entries, |entries|)
    ensures r.Ok? ==> Recovers(disk, r.value)
    ensures r.Ok? ==> forall name :: name in swept <==> name in disk && EndsWith(name, ".tmp")
    ensures r.Err? ==> forall name <- swept :: name in disk && EndsWith(name, ".tmp")
  {
    hide ParseSeq, Sum, EndsWith, Name, Scanned, Lists, Exhausts, Recovers, Swept;
    var pending: map<nat, nat>, total: nat, next: nat := map[], 0, 0;
    swept := [];
    ScanStart(entries);
    SweepNone(entries);
    var i := 0;
    while i < |entries|
      invariant i <= |entries|
      invariant Scanned(entries, i, Memory(next, total, pending))
      invariant Swept(swept, entries, i) && Measured(entries, i)
    {
      var e := entries[i];
      SweptSome(swept, entries, i, disk);
      SweepNext(swept, entries, i);
      if EndsWith(e.name, ".tmp") {
        TmpNeverParses(e.name);
        ScanOther(entries, i, Memory(next, total, pending));
        swept := swept + [e.name];
      } else {
        var parsed := ParseSeq(e.name);
        if parsed.Some? {
          if !e.readable {
            return Err(Io), swept;
          }
          ScanPublished(entries, i, Memory(next, total, pending), disk);
          var n := parsed.value;
          pending := pending[n := e.len];
          total := total + e.len;
          next := if next > n + 1 then next else n + 1;
        } else {
          ScanOther(entries, i, Memory(next, total, pending));
        }
      }
      i := i + 1;
    }
    SweptSome(swept, entries, i, disk);
    if !complete {
      return Err(Io), swept;
    }
    var m := Memory(next, total, pending);
    ScanRecovers(entries, m, disk);
    SweptAll(swept, entries, disk);
    return Ok(m), swept;
  }

  datatype DrainOutcome = Delivered | Idle | TryAgain

  const IDLE_POLL := 1000
  const BACKOFF_BASE := 1000
  const BACKOFF_MAX := 30000

  function Doubled(n: nat): nat {
    if n == 0 then BACKOFF_BASE else 2 * Doubled(n - 1)
  }

  /** Retries since the last delivery; idle polls do not reset the count. */
  function Retries(outcomes: seq<DrainOutcome>): nat {
    if outcomes == [] || outcomes[|outcomes| - 1].Delivered? then 0
    else Retries(outcomes[..|outcomes| - 1]) + if outcomes[|outcomes| - 1].TryAgain? then 1 else 0
  }

  function Min(a: nat, b: nat): nat {
    if a <= b then a else b
  }

  lemma {:induction false} DoubledGrows(n: nat)
    ensures Doubled(n) >= BACKOFF_BASE
  {
    if n > 0 { DoubledGrows(n - 1); }
  }

  /** The wait after the i-th outcome, in milliseconds and without jitter: none after a delivery,
      the idle poll when empty, and otherwise one second doubled once per earlier retry since
      the last delivery, up to thirty. */
  function WaitAfter(outcomes: seq<DrainOutcome>, i: nat): nat
    requires i < |outcomes|
  {
    match outcomes[i]
    case Delivered => 0
    case Idle => IDLE_POLL
    case TryAgain => Min(Doubled(Retries(outcomes[..i])), BACKOFF_MAX)
  }

  method DrainWaits(outcomes: seq<DrainOutcome>) returns (waits: seq<nat>)
    ensures |waits| == |outcomes|
    ensures forall i | 0 <= i < |outcomes| :: waits[i] == WaitAfter(outcomes, i)
    ensures forall i | 0 <= i < |outcomes| :: outcomes[i].Delivered? ==> waits[i] == 0
    ensures forall i | 0 <= i < |outcomes| :: outcomes[i].Idle? ==> waits[i] == 1000
  {
    waits := [];
    var backoff := BACKOFF_BASE;
    for i := 0 to |outcomes|
      invariant |waits| == i
      invariant backoff == Min(Doubled(Retries(outcomes[..i])), BACKOFF_MAX)
      invariant forall j | 0 <= j < i :: waits[j] == WaitAfter(outcomes, j)
    {
      assert outcomes[..i + 1][..i] == outcomes[..i];
      DoubledGrows(Retries(outcomes[..i]));
      match outcomes[i] {
        case Delivered =>
          backoff := BACKOFF_BASE;
          waits := waits + [0];
        case Idle =>
          waits := waits + [IDLE_POLL];
        case TryAgain =>
          waits := waits + [backoff];
          backoff := Min(2 * backoff, BACKOFF_MAX);
      }
    }
  }

  /** After `n` failures in a row the waits were 1, 2, 4, 8, 16 and then always 30 seconds. */
  lemma {:induction false} RetryWaits(n: nat)
    ensures var failures := seq(n, _ => TryAgain);
      && Retries(failures) == n
      && forall i | 0 <= i < n ::
           WaitAfter(failures, i) == if i < 5 then [1000, 2000, 4000, 8000, 16000][i] else 30000
  {
    var failures := seq(n, _ => TryAgain);
    if n > 0 {
      RetryWaits(n - 1);
      var before := seq(n - 1, _ => TryAgain);
      assert failures[..n - 1] == before;
      DoubledValues(n - 1);
      forall i | 0 <= i < n - 1 ensures WaitAfter(failures, i) == WaitAfter(before, i) {
        assert failures[..i] == before[..i];
      }
    }
  }

  lemma {:induction false} DoubledValues(n: nat)
    ensures if n < 5 then Doubled(n) == [1000, 2000, 4000, 8000, 16000][n] else Doubled(n) >= 32000
  {
    if n > 0 { DoubledValues(n - 1); }
  }
}
