/** basic_archive (basic_archive.c): comparing two files in spite of short reads, and archiving one file
    over any number of attempts, errors and crashes. */
module Archive {
  import opened Wrappers

  type Byte = b: int | 0 <= b < 256

  type Bytes = seq<Byte>

  const CMP_BUF_SIZE: nat := 4096

  // ---------------------------------------------------------------- compare_files

  /** An open file; `fails` says which of the reads from it fail. */
  class File {
    const content: Bytes
    const fails: nat -> bool
    var pos: nat
    var calls: nat

    ghost predicate Valid()
      reads this
    {
      pos <= |content|
    }

    constructor (content: Bytes, fails: nat -> bool)
      ensures Valid() && this.content == content && this.fails == fails && pos == 0 && calls == 0
    {
      this.content, this.fails := content, fails;
      pos, calls := 0, 0;
    }

    /** read(2): any positive number of bytes up to the room given, 0 only at the end, -1 on error. */
    method Read(buf: array<Byte>, at: nat) returns (nbytes: int)
      requires Valid() && at < buf.Length
      modifies this, buf
      ensures Valid() && -1 <= nbytes <= buf.Length - at && calls == old(calls) + 1
      ensures nbytes < 0 <==> fails(old(calls))
      ensures nbytes == 0 ==> pos == |content|
      ensures nbytes < 0 ==> pos == old(pos)
      ensures nbytes >= 0 ==> pos == old(pos) + nbytes
      ensures nbytes >= 0 ==> buf[..at + nbytes] == old(buf[..at]) + content[old(pos)..pos]
    {
      calls := calls + 1;
      if fails(calls - 1) {
        return -1;
      }
      var n: nat :| n <= buf.Length - at && n <= |content| - pos && (n == 0 ==> pos == |content|);
      ghost var was := buf[..at];
      forall i | 0 <= i < n {
        buf[at + i] := content[pos + i];
      }
      assert buf[..at] == was;
      ghost var got, piece := buf[at..at + n], content[pos..pos + n];
      assert forall i | 0 <= i < n :: got[i] == piece[i];
      assert got == piece;
      assert buf[..at + n] == buf[..at] + buf[at..at + n];
      pos := pos + n;
      nbytes := n;
    }
  }

  /** One of the two inner loops: fill the buffer as far as the file goes. None is a read error, the first
      one. */
  method Fill(f: File, buf: array<Byte>) returns (len: Option<nat>)
    requires f.Valid() && buf.Length == CMP_BUF_SIZE
    modifies f, buf
    ensures f.Valid() && f.pos >= old(f.pos) && f.calls >= old(f.calls)
    ensures len.None? ==>
              f.calls > old(f.calls) && f.fails(f.calls - 1) && NoneFails(f.fails, old(f.calls), f.calls - 1)
    ensures len.Some? ==> NoneFails(f.fails, old(f.calls), f.calls)
    ensures len.Some? ==>
              && len.value <= CMP_BUF_SIZE && f.pos == old(f.pos) + len.value
              && buf[..len.value] == f.content[old(f.pos)..f.pos]
              && (len.value < CMP_BUF_SIZE ==> f.pos == |f.content|)
  {
    var bufLen := 0;
    while bufLen < CMP_BUF_SIZE
      invariant 0 <= bufLen <= CMP_BUF_SIZE && f.Valid() && f.pos == old(f.pos) + bufLen
      invariant buf[..bufLen] == f.content[old(f.pos)..f.pos]
      invariant f.calls >= old(f.calls) && NoneFails(f.fails, old(f.calls), f.calls)
    {
      var nbytes := f.Read(buf, bufLen);
      if nbytes < 0 {
        return None;
      }
      NoneFailsNext(f.fails, old(f.calls), f.calls - 1);
      JoinPieces(f.content, old(f.pos), f.pos - nbytes, f.pos);
      if nbytes == 0 {
        break;
      }
      bufLen := bufLen + nbytes;
    }
    return Some(bufLen);
  }

  lemma {:induction false} JoinPieces(s: Bytes, a: nat, b: nat, c: nat)
    requires a <= b <= c <= |s|
    ensures s[a..b] + s[b..c] == s[a..c]
  {
  }

  /** No read from number `from` up to number n fails. */
  predicate NoneFails(fails: nat -> bool, from: nat, n: nat) {
    forall k | from <= k < n :: !fails(k)
  }

  lemma {:induction false} NoneFailsNext(fails: nat -> bool, from: nat, n: nat)
    requires NoneFails(fails, from, n) && !fails(n)
    ensures NoneFails(fails, from, n + 1)
  {
    forall k | from <= k < n + 1 ensures !fails(k) {
      if k < n { assert !fails(k); }
    }
  }

  lemma {:induction false} NoneFailsJoin(fails: nat -> bool, from: nat, mid: nat, n: nat)
    requires NoneFails(fails, from, mid) && NoneFails(fails, mid, n)
    ensures NoneFails(fails, from, n)
  {
    forall k | from <= k < n ensures !fails(k) {
      if k < mid { assert !fails(k); }
    }
  }

  /** compare_files: whether the contents are the same, for every pattern of short reads, unless a read
      fails. The counts are of the reads made; the answer is None if and only if one of them failed. */
  method CompareFiles(file1: Bytes, fails1: nat -> bool, file2: Bytes, fails2: nat -> bool)
    returns (r: Option<bool>, ghost calls1: nat, ghost calls2: nat)
    ensures r.Some? ==> (r.value <==> file1 == file2)
    ensures r.Some? <==> NoneFails(fails1, 0, calls1) && NoneFails(fails2, 0, calls2)
  {
    var fd1 := new File(file1, fails1);
    var fd2 := new File(file2, fails2);
    var buf1 := new Byte[CMP_BUF_SIZE](_ => 0);
    var buf2 := new Byte[CMP_BUF_SIZE](_ => 0);
    while true
      invariant fd1.Valid() && fd2.Valid() && fd1.pos == fd2.pos && fd1.content == file1 && fd2.content == file2
      invariant file1[..fd1.pos] == file2[..fd2.pos]
      invariant fresh(fd1) && fresh(fd2) && fd1 != fd2 && fresh(buf1) && fresh(buf2) && buf1 != buf2
      invariant buf1.Length == buf2.Length == CMP_BUF_SIZE && fd1.fails == fails1 && fd2.fails == fails2
      invariant NoneFails(fails1, 0, fd1.calls) && NoneFails(fails2, 0, fd2.calls)
      decreases |file1| - fd1.pos
    {
      ghost var at, done1, done2 := fd1.pos, fd1.calls, fd2.calls;
      var len1 := Fill(fd1, buf1);
      if len1.None? {
        return None, fd1.calls, fd2.calls;
      }
      var len2 := Fill(fd2, buf2);
      if len2.None? {
        return None, fd1.calls, fd2.calls;
      }
      NoneFailsJoin(fails1, 0, done1, fd1.calls);
      NoneFailsJoin(fails2, 0, done2, fd2.calls);
      Chunks(file1, file2, at, len1.value, len2.value);
      if len1.value != len2.value || buf1[..len1.value] != buf2[..len1.value] {
        return Some(false), fd1.calls, fd2.calls;
      }
      if len1.value == 0 {
        return Some(true), fd1.calls, fd2.calls;
      }
    }
  }

  /** What the next chunks of two files that agree so far say about the files. */
  lemma {:induction false} Chunks(a: Bytes, b: Bytes, at: nat, n1: nat, n2: nat)
    requires at + n1 <= |a| && at + n2 <= |b| && a[..at] == b[..at]
    requires n1 < CMP_BUF_SIZE ==> at + n1 == |a|
    requires n2 < CMP_BUF_SIZE ==> at + n2 == |b|
    requires n1 <= CMP_BUF_SIZE && n2 <= CMP_BUF_SIZE
    ensures n1 != n2 || a[at..at + n1] != b[at..at + n1] ==> a != b
    ensures n1 == n2 && a[at..at + n1] == b[at..at + n1] ==> a[..at + n1] == b[..at + n1]
    ensures n1 == n2 == 0 ==> a == b
  {
    if n1 == n2 && a[at..at + n1] == b[at..at + n1] {
      assert a[..at + n1] == a[..at] + a[at..at + n1];
      assert b[..at + n1] == b[..at] + b[at..at + n1];
    }
    if n1 == n2 == 0 {
      assert a[..at] == a && b[..at] == b;
    }
  }

  // ---------------------------------------------------------------- attempts, errors and crashes

  /** Where an attempt is. */
  datatype Phase =
    | Idle
    /** stat found the destination */
    | Found
    /** stat found nothing */
    | Absent
    /** `done` bytes are copied to the temporary file */
    | Copying(temp: nat, done: nat)
    /** the temporary file is complete and on disk */
    | Synced(temp: nat)
    /** it is renamed, the directory not yet synced */
    | Renamed
    | Succeeded
    /** "archive file already exists" */
    | AlreadyExists

  /** The archive directory: the destination, whether its name would survive a crash, and temporary
      files; and the one archiver. */
  datatype State = State(source: Bytes, dest: Option<Bytes>, durable: bool, temps: map<nat, Bytes>, phase: Phase)

  datatype Action =
    | Stat
    | Compare
    | Create(name: nat)
    | Append(n: nat)
    | SyncTemp
    | Rename
    | SyncDirectory
    /** an error ends the attempt; files stay as they are */
    | Fail
    /** a crash: temporary files may hold anything, a name that was not synced may be gone */
    | Crash(temps: map<nat, Bytes>, undone: bool)
    /** the server asks again, although the attempt reported success or failure */
    | Retry

  predicate Enabled(s: State, a: Action) {
    match a
    case Stat => s.phase.Idle?
    case Compare => s.phase.Found? && s.dest.Some?
    case Create(name) => s.phase.Absent?
    case Append(n) => s.phase.Copying? && s.phase.temp in s.temps && s.phase.done + n <= |s.source|
    case SyncTemp => s.phase.Copying? && s.phase.done == |s.source|
    case Rename => s.phase.Synced? && s.phase.temp in s.temps
    case SyncDirectory => s.phase.Renamed?
    case Fail => !s.phase.Idle? && !s.phase.Succeeded? && !s.phase.AlreadyExists?
    case Crash(_, _) => true
    case Retry => s.phase.Succeeded? || s.phase.AlreadyExists?
  }

  function Apply(s: State, a: Action): State
    requires Enabled(s, a)
  {
    match a
    case Stat => s.(phase := if s.dest.Some? then Found else Absent)
    case Compare =>
      if s.dest.value == s.source then s.(durable := true, phase := Succeeded) else s.(phase := AlreadyExists)
    case Create(name) =>
      // copy_file refuses an existing name
      if name in s.temps then s.(phase := Idle) else s.(temps := s.temps[name := []], phase := Copying(name, 0))
    case Append(n) =>
      var done := s.phase.done + n;
      s.(temps := s.temps[s.phase.temp := s.source[..done]], phase := Copying(s.phase.temp, done))
    case SyncTemp => s.(phase := Synced(s.phase.temp))
    case Rename =>
      s.(dest := Some(s.temps[s.phase.temp]), durable := false, temps := s.temps - {s.phase.temp}, phase := Renamed)
    case SyncDirectory => s.(durable := true, phase := Succeeded)
    case Fail => s.(phase := Idle)
    case Crash(temps, undone) =>
      s.(temps := temps, phase := Idle, dest := if undone && !s.durable then None else s.dest)
    case Retry => s.(phase := Idle)
  }

  /** Nothing is there yet. */
  predicate Init(s: State) {
    s.dest.None? && !s.durable && s.phase.Idle?
  }

  predicate Inv(s: State) {
    && (s.dest.Some? ==> s.dest.value == s.source)
    && (s.durable ==> s.dest.Some?)
    && (s.phase.Absent? || s.phase.Copying? || s.phase.Synced? ==> s.dest.None?)
    && match s.phase
       case Copying(temp, done) => done <= |s.source| && temp in s.temps && s.temps[temp] == s.source[..done]
       case Synced(temp) => temp in s.temps && s.temps[temp] == s.source
       case Renamed => s.dest.Some?
       case Succeeded => s.dest.Some? && s.durable
       case AlreadyExists => false
       case _ => true
  }

  lemma {:induction false} StepKeeps(s: State, a: Action)
    requires Inv(s) && Enabled(s, a)
    ensures Inv(Apply(s, a)) && Apply(s, a).source == s.source
  {
    if a.SyncTemp? { assert s.source[..s.phase.done] == s.source; }
  }

  predicate StepAt(trace: seq<State>, acts: seq<Action>, k: nat)
    requires |trace| == |acts| + 1 && k < |acts|
  {
    Enabled(trace[k], acts[k]) && trace[k + 1] == Apply(trace[k], acts[k])
  }

  predicate IsRun(trace: seq<State>, acts: seq<Action>) {
    |trace| == |acts| + 1 && Init(trace[0]) && forall k | 0 <= k < |acts| :: StepAt(trace, acts, k)
  }

  /** In every run of attempts, errors and crashes, with an unchanging source, a sole archiver and atomic
      renames: the destination is absent or identical to the source, no attempt fails because it already
      exists, and reported success means that it is there for good. */
  lemma {:induction false} ArchiveSafe(trace: seq<State>, acts: seq<Action>, k: nat)
    requires IsRun(trace, acts) && k < |trace|
    ensures trace[k].source == trace[0].source && Inv(trace[k])
    ensures trace[k].dest.None? || trace[k].dest.value == trace[0].source
    ensures !trace[k].phase.AlreadyExists?
    ensures trace[k].phase.Succeeded? ==> trace[k].dest == Some(trace[0].source) && trace[k].durable
  {
    if k > 0 {
      ArchiveSafe(trace, acts, k - 1);
      assert StepAt(trace, acts, k - 1);
      StepKeeps(trace[k - 1], acts[k - 1]);
    }
  }

  /** Once it is there for good it stays, whatever happens later. */
  lemma {:induction false} ArchiveStays(trace: seq<State>, acts: seq<Action>, j: nat, k: nat)
    requires IsRun(trace, acts) && j <= k < |trace| && trace[j].durable
    ensures trace[k].durable && trace[k].dest == Some(trace[0].source)
  {
    ArchiveSafe(trace, acts, j);
    if j < k {
      ArchiveStays(trace, acts, j, k - 1);
      ArchiveSafe(trace, acts, k - 1);
      assert StepAt(trace, acts, k - 1);
    }
  }
}
