/**
 * Integer and string logic of the Windows port: the "name=value" string
 * handed to `_putenv`, FILETIME to timespec conversion, the millisecond
 * rounding of timed waits, the S_IFMT / d_type mapping, the permission mode
 * chosen for O_CREAT and the stat fields built from file information.
 * Win32 calls are oracle inputs.
 */
module PortWin {

  import opened Wrappers
  import opened CString
  import CArith
  import Errno

  // ---------------------------------------------------------------------
  // pal_setenv, pal_unsetenv
  // ---------------------------------------------------------------------

  /** The buffer pal_setenv builds: name, '=', value and a terminator. */
  function SetenvString(name: seq<char>, value: seq<char>): (str: seq<char>)
    requires Valid(name) && Valid(value)
    ensures |str| == |name| + 1 + |value| + 1
    ensures str[|str| - 1] == NUL
  {
    name + "=" + value + [NUL]
  }

  /** How an environment assignment is read: split at its first '='. */
  function SplitAssignment(s: seq<char>): Option<(seq<char>, seq<char>)>
  {
    match IndexOf(s, '=')
    case None => None
    case Some(i) => Some((s[..i], s[i + 1..]))
  }

  /** pal_setenv: hands the built string to `_putenv` and returns 0 whatever happens. */
  function Setenv(name: seq<char>, value: seq<char>, overwrite: int): (r: (int, seq<char>))
    requires Valid(name) && Valid(value)
    ensures r.0 == 0
    ensures '=' !in name ==> SplitAssignment(Contents(r.1)) == Some((name, value))
  {
    SetenvRoundTrip(name, value);
    (0, SetenvString(name, value))
  }

  /** The string holds exactly the assignment `name=value` when the name has no '='. */
  lemma SetenvRoundTrip(name: seq<char>, value: seq<char>)
    requires Valid(name) && Valid(value)
    ensures '=' !in name ==> SplitAssignment(Contents(SetenvString(name, value))) == Some((name, value))
  {
    var body := name + "=" + value;
    assert forall k | 0 <= k < |body| :: body[k] != NUL;
    assert SetenvString(name, value) == body + [NUL] + [];
    ContentsOfTerminated(body, []);
    if '=' !in name {
      var i := IndexOf(body, '=');
      assert body[|name|] == '=';
      assert body[..|name|] == name;
      assert i == Some(|name|);
      assert body[|name| + 1..] == value;
    }
  }

  /** pal_unsetenv: sets the variable to the empty value, which `_putenv` reads as removal. */
  function Unsetenv(name: seq<char>): (r: (int, seq<char>))
    requires Valid(name)
    ensures r.0 == 0
    ensures '=' !in name ==> SplitAssignment(Contents(r.1)) == Some((name, []))
  {
    Setenv(name, "", 1)
  }

  // ---------------------------------------------------------------------
  // pal_file_time_to_timespec
  // ---------------------------------------------------------------------

  /** 1970-01-01 in FILETIME units (100 ns since 1601-01-01). */
  const EPOCH: nat := 116444736000000000
  const TICKS_PER_SECOND: nat := 10000000

  datatype Timespec = Timespec(sec: int, nsec: int)

  /** The 64-bit tick count held by a FILETIME's two 32-bit halves. */
  function Ticks(low: nat, high: nat): (t: nat)
    requires low < CArith.TWO_POW_32 && high < CArith.TWO_POW_32
    ensures t < CArith.TWO_POW_64
  {
    high * CArith.TWO_POW_32 + low
  }

  /**
   * pal_file_time_to_timespec: seconds since 1970 from an unsigned 64-bit
   * subtraction, and the sub-second ticks as nanoseconds.
   */
  function FileTimeToTimespec(low: nat, high: nat): (ts: Timespec)
    requires low < CArith.TWO_POW_32 && high < CArith.TWO_POW_32
    ensures 0 <= ts.nsec <= 999999900 && ts.nsec % 100 == 0
    ensures Ticks(low, high) >= EPOCH ==>
      ts.sec * TICKS_PER_SECOND + ts.nsec / 100 + EPOCH == Ticks(low, high)
    ensures Ticks(low, high) < EPOCH ==>
      ts.sec == (Ticks(low, high) - EPOCH + CArith.TWO_POW_64) / TICKS_PER_SECOND
  {
    var t := Ticks(low, high);
    var elapsed := CArith.ToUint64(t - EPOCH);
    assert t >= EPOCH ==> elapsed == t - EPOCH;
    assert t < EPOCH ==> elapsed == t - EPOCH + CArith.TWO_POW_64;
    var sec := CArith.ToInt64(elapsed / TICKS_PER_SECOND);
    var ts := Timespec(sec, (t % TICKS_PER_SECOND) * 100);
    if t >= EPOCH then EpochWholeSeconds(t); ts else ts
  }

  /** The epoch is a whole number of seconds, so the tick remainder survives the subtraction. */
  lemma EpochWholeSeconds(t: nat)
    requires t >= EPOCH
    ensures (t - EPOCH) % TICKS_PER_SECOND == t % TICKS_PER_SECOND
    ensures (t - EPOCH) / TICKS_PER_SECOND * TICKS_PER_SECOND + t % TICKS_PER_SECOND == t - EPOCH
  {
    var e := EPOCH / TICKS_PER_SECOND;
    assert EPOCH == e * TICKS_PER_SECOND;
    var u := t - EPOCH;
    var q := u / TICKS_PER_SECOND;
    var r := u % TICKS_PER_SECOND;
    assert t == (q + e) * TICKS_PER_SECOND + r;
    CArith.LemmaModUnique(t, TICKS_PER_SECOND, q + e, r);
  }

  // ---------------------------------------------------------------------
  // pal_condition_timedwait (millisecond rounding)
  // ---------------------------------------------------------------------

  /** The wait in milliseconds: whole milliseconds of the timeout, plus one for any remainder. */
  function TimedWaitMs(sec: int, nsec: int): (ms: int)
    ensures 0 <= nsec ==> (ms - 1) * 1000000 < sec * 1000000000 + nsec <= ms * 1000000
  {
    var ms := sec * 1000 + CArith.CDiv(nsec, 1000000);
    if CArith.CRem(nsec, 1000000) != 0 then ms + 1 else ms
  }

  // ---------------------------------------------------------------------
  // pal_iftodt, pal_dttoif
  // ---------------------------------------------------------------------

  /** Microsoft CRT file-type bits; S_IFLNK comes from the portability header. */
  const S_IFMT: nat := 0xF000
  const S_IFIFO: nat := 0x1000
  const S_IFCHR: nat := 0x2000
  const S_IFDIR: nat := 0x4000
  const S_IFREG: nat := 0x8000
  const S_IFLNK: nat := 0xA000

  const PAL_DT_UNKNOWN: nat := 0
  const PAL_DT_FIFO: nat := 1
  const PAL_DT_CHR: nat := 2
  const PAL_DT_DIR: nat := 4
  const PAL_DT_REG: nat := 8

  /** `ft & S_IFMT` on a non-negative mode: bits 12 to 15. */
  function IfFmt(ft: nat): (t: nat)
    ensures t % 0x1000 == 0 && t <= S_IFMT
  {
    ((ft / 0x1000) % 16) * 0x1000
  }

  /** The four file types with a d_type counterpart. */
  predicate MappedType(t: nat)
  {
    t == S_IFREG || t == S_IFDIR || t == S_IFCHR || t == S_IFIFO
  }

  /** pal_iftodt: the d_type of a mode, from its file-type bits only. */
  function IfToDt(ft: nat): (dt: nat)
    ensures dt == PAL_DT_REG <==> IfFmt(ft) == S_IFREG
    ensures dt == PAL_DT_DIR <==> IfFmt(ft) == S_IFDIR
    ensures dt == PAL_DT_CHR <==> IfFmt(ft) == S_IFCHR
    ensures dt == PAL_DT_FIFO <==> IfFmt(ft) == S_IFIFO
    ensures dt == PAL_DT_UNKNOWN <==> !MappedType(IfFmt(ft))
  {
    var t := IfFmt(ft);
    if t == S_IFREG then PAL_DT_REG
    else if t == S_IFDIR then PAL_DT_DIR
    else if t == S_IFCHR then PAL_DT_CHR
    else if t == S_IFIFO then PAL_DT_FIFO
    else PAL_DT_UNKNOWN
  }

  /** pal_dttoif: the file-type bits of a d_type, 0 for the types without a mapping. */
  function DtToIf(dt: nat): (m: nat)
    ensures m == 0 <==> dt !in {PAL_DT_REG, PAL_DT_DIR, PAL_DT_FIFO, PAL_DT_CHR}
    ensures m != 0 ==> MappedType(m)
  {
    if dt == PAL_DT_REG then S_IFREG
    else if dt == PAL_DT_DIR then S_IFDIR
    else if dt == PAL_DT_FIFO then S_IFIFO
    else if dt == PAL_DT_CHR then S_IFCHR
    else 0
  }

  /** Mode to d_type and back keeps exactly the file-type bits of the four mapped types. */
  lemma IfToDtRoundTrip(ft: nat)
    ensures MappedType(IfFmt(ft)) ==> DtToIf(IfToDt(ft)) == IfFmt(ft)
    ensures !MappedType(IfFmt(ft)) ==> DtToIf(IfToDt(ft)) == 0
  {
  }

  /** d_type to mode and back is the identity on the four mapped types. */
  lemma DtToIfRoundTrip(dt: nat)
    requires dt in {PAL_DT_REG, PAL_DT_DIR, PAL_DT_FIFO, PAL_DT_CHR}
    ensures IfToDt(DtToIf(dt)) == dt
  {
    var m := DtToIf(dt);
    assert IfFmt(m) == m;
  }

  // ---------------------------------------------------------------------
  // pal_create_pmode
  // ---------------------------------------------------------------------

  /** Microsoft CRT open flags and permission bits. */
  const O_WRONLY: nat := 0x1
  const O_RDWR: nat := 0x2
  const O_CREAT: nat := 0x100
  const S_IREAD: nat := 0x100
  const S_IWRITE: nat := 0x80

  /**
   * pal_create_pmode: the permission of a file `open` may create; -1 when
   * O_CREAT is absent. The file is readable unless opened write-only, and
   * writable when opened for writing.
   */
  function CreatePmode(flags: nat): (pmode: int)
    ensures pmode == -1 <==> !CArith.HasBit(flags, O_CREAT)
    ensures pmode != -1 ==> pmode in {S_IREAD, S_IWRITE, S_IREAD + S_IWRITE}
    ensures pmode != -1 ==>
      (CArith.HasBit(pmode, S_IREAD) <==> CArith.HasBit(flags, O_RDWR) || !CArith.HasBit(flags, O_WRONLY))
    ensures pmode != -1 ==>
      (CArith.HasBit(pmode, S_IWRITE) <==> CArith.HasBit(flags, O_RDWR) || CArith.HasBit(flags, O_WRONLY))
  {
    if CArith.HasBit(flags, O_CREAT) then
      if CArith.HasBit(flags, O_RDWR) then S_IREAD + S_IWRITE
      else if CArith.HasBit(flags, O_WRONLY) then S_IWRITE
      else S_IREAD
    else -1
  }

  // ---------------------------------------------------------------------
  // pal_fstat_win32
  // ---------------------------------------------------------------------

  const FILE_ATTRIBUTE_DIRECTORY: nat := 0x10
  const FILE_ATTRIBUTE_DEVICE: nat := 0x40
  const FILE_ATTRIBUTE_REPARSE_POINT: nat := 0x400

  datatype FileTime = FileTime(low: nat, high: nat)

  predicate ValidFileTime(ft: FileTime)
  {
    ft.low < CArith.TWO_POW_32 && ft.high < CArith.TWO_POW_32
  }

  /** What GetFileInformationByHandle reports. */
  datatype FileInfo = FileInfo(volumeSerial: nat, indexHigh: nat, indexLow: nat, links: nat, attr: nat,
                               sizeHigh: nat, sizeLow: nat, created: FileTime, written: FileTime, accessed: FileTime)

  predicate ValidInfo(fi: FileInfo)
  {
    && fi.indexHigh < CArith.TWO_POW_32 && fi.indexLow < CArith.TWO_POW_32
    && fi.sizeHigh < CArith.TWO_POW_32 && fi.sizeLow < CArith.TWO_POW_32
    && ValidFileTime(fi.created) && ValidFileTime(fi.written) && ValidFileTime(fi.accessed)
  }

  datatype Stat = Stat(dev: nat, ino: nat, nlink: nat, mode: nat, size: int, ctim: Timespec, mtim: Timespec, atim: Timespec)

  datatype StatResult = StatFailed(errno: nat) | StatOk(st: Stat)

  /**
   * pal_fstat_win32: `handleValid` is whether the handle is not
   * INVALID_HANDLE_VALUE, `info` what GetFileInformationByHandle returned.
   */
  function FstatWin32(handleValid: bool, info: Option<FileInfo>, isLstat: bool): (r: StatResult)
    requires info.Some? ==> ValidInfo(info.value)
    ensures !handleValid || info.None? ==> r == StatFailed(Errno.EIO)
    ensures r.StatOk? ==> info.Some?
    ensures handleValid && info.Some? ==> r.StatOk?
    ensures r.StatOk? ==> var fi := info.value; var st := r.st;
      && (st.mode == S_IFLNK <==> CArith.HasBit(fi.attr, FILE_ATTRIBUTE_REPARSE_POINT) && isLstat)
      && (st.mode != S_IFLNK ==>
           st.mode == (if CArith.HasBit(fi.attr, FILE_ATTRIBUTE_DEVICE) then S_IFCHR
                       else if CArith.HasBit(fi.attr, FILE_ATTRIBUTE_DIRECTORY) then S_IFDIR
                       else S_IFREG))
      && st.ino / CArith.TWO_POW_32 == fi.indexHigh && st.ino % CArith.TWO_POW_32 == fi.indexLow
      && st.size == CArith.ToInt64(fi.sizeHigh * CArith.TWO_POW_32 + fi.sizeLow)
      && st.nlink == fi.links && st.dev == fi.volumeSerial
      && st.ctim == FileTimeToTimespec(fi.created.low, fi.created.high)
      && st.mtim == FileTimeToTimespec(fi.written.low, fi.written.high)
      && st.atim == FileTimeToTimespec(fi.accessed.low, fi.accessed.high)
  {
    if !handleValid || info.None? then StatFailed(Errno.EIO)
    else
      var fi := info.value;
      var linkMode := if CArith.HasBit(fi.attr, FILE_ATTRIBUTE_REPARSE_POINT) && isLstat then S_IFLNK else 0;
      var mode :=
        if linkMode != 0 then linkMode
        else if CArith.HasBit(fi.attr, FILE_ATTRIBUTE_DEVICE) then S_IFCHR
        else if CArith.HasBit(fi.attr, FILE_ATTRIBUTE_DIRECTORY) then S_IFDIR
        else S_IFREG;
      // The two halves do not overlap, so `high << 32 | low` is `high * 2^32 + low`.
      var ino := fi.indexHigh * CArith.TWO_POW_32 + fi.indexLow;
      var size := CArith.ToInt64(fi.sizeHigh * CArith.TWO_POW_32 + fi.sizeLow);
      StatOk(Stat(fi.volumeSerial, ino, fi.links, mode, size,
                  FileTimeToTimespec(fi.created.low, fi.created.high),
                  FileTimeToTimespec(fi.written.low, fi.written.high),
                  FileTimeToTimespec(fi.accessed.low, fi.accessed.high)))
  }
}
