/**
 * Integer and string logic of the POSIX port: the TZ string written for a
 * UTC offset, the nanosecond carry of timed waits, the millisecond to
 * timeval split and the PATH search of the `execvp` replacement. `setenv`,
 * `getenv` and `execve` are oracle inputs.
 */
module PortUnix {

  import opened Wrappers
  import opened CString
  import CArith
  import Errno

  /** PAL_PATH_MAX on a POSIX host with PATH_MAX 4096 (Linux). */
  const PAL_PATH_MAX: nat := 4096 + 16

  // ---------------------------------------------------------------------
  // pal_settimezoneoffset
  // ---------------------------------------------------------------------

  /** What a C function hands back: a value, or nothing when control falls off its end. */
  datatype ReturnValue = Returned(value: int) | NoReturnValue

  /** The return value and the TZ string set, if any. */
  datatype TzOutcome = TzOutcome(ret: ReturnValue, tz: Option<seq<char>>)

  /** Offsets from UTC-12:59 to UTC+14:59 are accepted, in whole minutes east of UTC. */
  predicate MinutesInRange(minutes: int)
  {
    -13 * 60 < minutes < 15 * 60
  }

  /** The offset in minutes, truncated toward zero as C's `/` does. */
  function OffsetMinutes(offsetSeconds: int): int
  {
    CArith.CDiv(offsetSeconds, 60)
  }

  /**
   * Reads a TZ string of the form "UTC" sign HH ":" MM as POSIX.1-2017
   * section 8.3 defines it (the offset is what is added to local time to
   * reach UTC), giving minutes east of UTC.
   */
  function ParseTz(s: seq<char>): (r: Option<int>)
  {
    if |s| == 9 && s[..3] == "UTC" && (s[3] == '+' || s[3] == '-') && s[6] == ':'
       && AllDigits(s[4..6]) && AllDigits(s[7..9]) && DecimalValue(s[7..9]) < 60
    then
      var west := DecimalValue(s[4..6]) * 60 + DecimalValue(s[7..9]);
      Some(if s[3] == '-' then west else -west)
    else None
  }

  /** The TZ string as the code formats it: the minutes field is C's `%` of the signed minutes. */
  function TzStringAsWritten(minutes: int): seq<char>
  {
    if minutes == 0 then "GTM"
    else if minutes > 0 then
      "UTC-" + Format02d(CArith.CDiv(minutes, 60)) + ":" + Format02d(CArith.CRem(minutes, 60))
    else
      "UTC+" + Format02d(CArith.CDiv(-minutes, 60)) + ":" + Format02d(CArith.CRem(minutes, 60))
  }

  /**
   * pal_settimezoneoffset as written: rejects offsets outside the range with
   * -1, otherwise sets TZ and falls off the end without a return statement.
   */
  function SetTimezoneOffsetAsWritten(offsetSeconds: int): (r: TzOutcome)
    ensures r.tz.None? <==> !MinutesInRange(OffsetMinutes(offsetSeconds))
    ensures r.tz.None? ==> r.ret == Returned(-1)
    ensures r.tz.Some? ==> r.ret == NoReturnValue
  {
    var minutes := OffsetMinutes(offsetSeconds);
    if minutes >= 15 * 60 || minutes <= -13 * 60 then TzOutcome(Returned(-1), None)
    else TzOutcome(NoReturnValue, Some(TzStringAsWritten(minutes)))
  }

  /** UTC-03:30 (Newfoundland) is written with a negative minutes field, which ParseTz, the POSIX TZ reader of this model, rejects. */
  lemma NegativeHalfHourOffsetMisformatted()
    ensures SetTimezoneOffsetAsWritten(-12600).tz == Some("UTC+03:-30")
    ensures ParseTz("UTC+03:-30").None?
    ensures SetTimezoneOffsetAsWritten(-12600).ret == NoReturnValue
  {
    assert OffsetMinutes(-12600) == -210;
    assert CArith.CDiv(210, 60) == 3;
    assert CArith.CRem(-210, 60) == -30;
    assert Decimal(3) == "3";
    assert Decimal(30) == Decimal(3) + ['0'];
    assert Format02d(3) == "03";
    assert Format02d(-30) == "-30";
    assert TzStringAsWritten(-210) == "UTC+" + "03" + ":" + "-30";
    assert "UTC+" + "03" + ":" + "-30" == "UTC+03:-30";
    assert SetTimezoneOffsetAsWritten(-12600) == TzOutcome(NoReturnValue, Some(TzStringAsWritten(-210)));
  }

  /** The TZ string with the minutes field taken as the magnitude of the remainder. */
  function TzString(minutes: int): (s: seq<char>)
    requires MinutesInRange(minutes)
    ensures minutes == 0 ==> s == "GTM"
    ensures minutes != 0 ==> ParseTz(s) == Some(minutes)
  {
    if minutes == 0 then "GTM"
    else
      var hours := CArith.CDiv(if minutes > 0 then minutes else -minutes, 60);
      var mins := if minutes > 0 then CArith.CRem(minutes, 60) else -CArith.CRem(minutes, 60);
      var s := (if minutes > 0 then "UTC-" else "UTC+") + Format02d(hours) + ":" + Format02d(mins);
      TzStringRoundTrip(minutes, hours, mins, s);
      s
  }

  /** The formatted hours and minutes read back as the offset. */
  lemma TzStringRoundTrip(minutes: int, hours: int, mins: int, s: seq<char>)
    requires MinutesInRange(minutes) && minutes != 0
    requires hours == CArith.CDiv(if minutes > 0 then minutes else -minutes, 60)
    requires mins == if minutes > 0 then CArith.CRem(minutes, 60) else -CArith.CRem(minutes, 60)
    requires s == (if minutes > 0 then "UTC-" else "UTC+") + Format02d(hours) + ":" + Format02d(mins)
    ensures ParseTz(s) == Some(minutes)
  {
    var m := if minutes > 0 then minutes else -minutes;
    assert hours * 60 + mins == m;
    assert 0 <= hours < 100 && 0 <= mins < 60;
    var h2 := Format02d(hours);
    var m2 := Format02d(mins);
    assert s[..3] == "UTC";
    assert s[4..6] == h2;
    assert s[7..9] == m2;
  }

  /**
   * pal_settimezoneoffset with the success path returning what setting TZ
   * returned (`setenvResult`) and the minutes field printed as a magnitude.
   */
  function SetTimezoneOffset(offsetSeconds: int, setenvResult: int): (r: TzOutcome)
    ensures r.tz.None? <==> !MinutesInRange(OffsetMinutes(offsetSeconds))
    ensures r.tz.None? ==> r.ret == Returned(-1)
    ensures r.tz.Some? ==> r.ret == Returned(setenvResult)
    ensures r.tz.Some? && OffsetMinutes(offsetSeconds) == 0 ==> r.tz.value == "GTM"
    ensures r.tz.Some? && OffsetMinutes(offsetSeconds) != 0 ==> ParseTz(r.tz.value) == Some(OffsetMinutes(offsetSeconds))
  {
    var minutes := OffsetMinutes(offsetSeconds);
    if minutes >= 15 * 60 || minutes <= -13 * 60 then TzOutcome(Returned(-1), None)
    else TzOutcome(Returned(setenvResult), Some(TzString(minutes)))
  }

  /** Both versions agree on every offset whose minutes are a non-negative remainder. */
  lemma SetTimezoneOffsetAgreesOnWholeHoursAndEast(offsetSeconds: int)
    requires MinutesInRange(OffsetMinutes(offsetSeconds))
    requires OffsetMinutes(offsetSeconds) >= 0 || CArith.CRem(OffsetMinutes(offsetSeconds), 60) == 0
    ensures SetTimezoneOffsetAsWritten(offsetSeconds).tz == SetTimezoneOffset(offsetSeconds, 0).tz
  {
  }

  // ---------------------------------------------------------------------
  // pal_condition_timedwait (nanosecond carry)
  // ---------------------------------------------------------------------

  const NANOS_PER_SECOND: nat := 1000000000

  /**
   * Adds a relative timeout to the current time and carries whole seconds
   * out of the nanosecond field, one at a time.
   */
  method AddTimeout(sec: int, nsec: int, addSec: int, addNsec: int) returns (s: int, ns: int)
    ensures s * NANOS_PER_SECOND + ns == (sec + addSec) * NANOS_PER_SECOND + nsec + addNsec
    ensures ns < NANOS_PER_SECOND
    ensures nsec + addNsec < NANOS_PER_SECOND ==> s == sec + addSec && ns == nsec + addNsec
    ensures nsec + addNsec >= 0 ==>
      ns == (nsec + addNsec) % NANOS_PER_SECOND && s == sec + addSec + (nsec + addNsec) / NANOS_PER_SECOND
  {
    s := sec + addSec;
    ns := nsec + addNsec;
    while ns >= NANOS_PER_SECOND
      invariant s * NANOS_PER_SECOND + ns == (sec + addSec) * NANOS_PER_SECOND + nsec + addNsec
      invariant nsec + addNsec >= 0 ==> ns >= 0
      invariant nsec + addNsec < NANOS_PER_SECOND ==> s == sec + addSec && ns == nsec + addNsec
      invariant s >= sec + addSec
      decreases ns
    {
      ns := ns - NANOS_PER_SECOND;
      s := s + 1;
    }
    if nsec + addNsec >= 0 {
      CArith.LemmaModUnique(nsec + addNsec, NANOS_PER_SECOND, s - sec - addSec, ns);
    }
  }

  // ---------------------------------------------------------------------
  // ms_to_timeval, pal_utimes
  // ---------------------------------------------------------------------

  datatype Timeval = Timeval(sec: int, usec: int)

  /** ms_to_timeval: splits an unsigned millisecond count into seconds and microseconds. */
  function MsToTimeval(v: nat): (tv: Timeval)
    requires v < CArith.TWO_POW_64
    ensures 0 <= tv.usec < 1000000 && tv.usec % 1000 == 0
    ensures tv.sec * 1000 + tv.usec / 1000 == v
  {
    Timeval(v / 1000, (v % 1000) * 1000)
  }

  /** The times pal_utimes passes on: its signed arguments are converted to `uint64_t` first. */
  function UtimesTimesAsWritten(atime: int, mtime: int): (r: (Timeval, Timeval))
    ensures atime >= 0 && atime < CArith.TWO_POW_64 ==> r.0.sec * 1000 + r.0.usec / 1000 == atime
    ensures mtime >= 0 && mtime < CArith.TWO_POW_64 ==> r.1.sec * 1000 + r.1.usec / 1000 == mtime
    ensures -CArith.TWO_POW_64 <= atime < 0 ==> r.0.sec * 1000 + r.0.usec / 1000 == atime + CArith.TWO_POW_64
    ensures -CArith.TWO_POW_64 <= mtime < 0 ==> r.1.sec * 1000 + r.1.usec / 1000 == mtime + CArith.TWO_POW_64
  {
    (MsToTimeval(CArith.ToUint64(atime)), MsToTimeval(CArith.ToUint64(mtime)))
  }

  /** One millisecond before 1970 becomes a time some 584 million years ahead. */
  lemma UtimesNegativeTimeWraps()
    ensures UtimesTimesAsWritten(-1, 0).0 == Timeval(18446744073709551, 615000)
  {
  }

  /** The signed split: floor division keeps times before 1970 in place. */
  function MsToTimevalSigned(v: int): (tv: Timeval)
    ensures 0 <= tv.usec < 1000000 && tv.usec % 1000 == 0
    ensures tv.sec * 1000 + tv.usec / 1000 == v
    ensures v >= 0 && v < CArith.TWO_POW_64 ==> tv == MsToTimeval(v)
  {
    Timeval(v / 1000, (v % 1000) * 1000)
  }

  /** pal_utimes with the split done on the signed value. */
  function UtimesTimes(atime: int, mtime: int): (r: (Timeval, Timeval))
    ensures r.0.sec * 1000 + r.0.usec / 1000 == atime
    ensures r.1.sec * 1000 + r.1.usec / 1000 == mtime
  {
    (MsToTimevalSigned(atime), MsToTimevalSigned(mtime))
  }

  // ---------------------------------------------------------------------
  // my_execvpe
  // ---------------------------------------------------------------------

  /** What `execve` does with a path: replaces the process image, or fails with an errno. */
  datatype ExecOutcome = Replaced | Failed(errno: nat)

  /**
   * The paths handed to `execve` in order, whether one of them replaced the
   * process, the return value and errno when the function returns.
   */
  datatype ExecResult = ExecResult(tried: seq<seq<char>>, replaced: bool, ret: int, errno: nat)

  const DEFAULT_PATH: seq<char> := "/bin:/usr/bin"

  /** The ':'-separated entries of a PATH value, empty entries included. */
  function PathEntries(path: seq<char>): (entries: seq<seq<char>>)
    ensures |entries| > 0
    decreases |path|
  {
    match IndexOf(path, ':')
    case None => [path]
    case Some(i) => [path[..i]] + PathEntries(path[i + 1..])
  }

  /** The directory and file name fit in the PAL_PATH_MAX buffer with '/' and the terminator. */
  predicate Fits(dir: seq<char>, filename: seq<char>)
  {
    |dir| + 1 + |filename| + 1 <= PAL_PATH_MAX
  }

  /** The errors after which the search moves on to the next directory. */
  predicate Continues(o: ExecOutcome)
  {
    o.Failed? && o.errno in {Errno.EACCES, Errno.ENOENT, Errno.ENOTDIR}
  }

  /** The paths the search may try, in PATH order: each fitting entry joined with the file name. */
  function Candidates(dirs: seq<seq<char>>, filename: seq<char>): seq<seq<char>>
  {
    if |dirs| == 0 then []
    else if Fits(dirs[0], filename) then [dirs[0] + "/" + filename] + Candidates(dirs[1..], filename)
    else Candidates(dirs[1..], filename)
  }

  /** Adds the paths tried earlier in front of a result. */
  function Prepend(tried: seq<seq<char>>, r: ExecResult): ExecResult
  {
    r.(tried := tried + r.tried)
  }

  /**
   * The search over the remaining entries `dirs`: `eacces` records whether a
   * candidate has failed with EACCES, `errno` the current errno.
   */
  function Search(dirs: seq<seq<char>>, filename: seq<char>, exec: seq<char> -> ExecOutcome,
                  eacces: bool, errno: nat): ExecResult
  {
    if |dirs| == 0 then ExecResult([], false, -1, if eacces then Errno.EACCES else errno)
    else if !Fits(dirs[0], filename) then Search(dirs[1..], filename, exec, eacces, errno)
    else
      var c := dirs[0] + "/" + filename;
      match exec(c)
      case Replaced => ExecResult([c], true, 0, errno)
      case Failed(e) =>
        if e == Errno.EACCES then Prepend([c], Search(dirs[1..], filename, exec, true, e))
        else if e == Errno.ENOENT || e == Errno.ENOTDIR then Prepend([c], Search(dirs[1..], filename, exec, eacces, e))
        else ExecResult([c], false, -1, e)
  }

  /** The whole policy: empty names fail, names with '/' are tried as given, others go through PATH. */
  function ExecvpePolicy(filename: seq<char>, pathEnv: Option<seq<char>>, exec: seq<char> -> ExecOutcome,
                         errno0: nat): ExecResult
  {
    if |filename| == 0 then ExecResult([], false, -1, Errno.ENOENT)
    else if '/' in filename then
      match exec(filename)
      case Replaced => ExecResult([filename], true, 0, errno0)
      case Failed(e) => ExecResult([filename], false, -1, e)
    else Search(PathEntries(pathEnv.GetOr(DEFAULT_PATH)), filename, exec, false, errno0)
  }

  /**
   * my_execvpe: walks PATH with a cursor and `strchr`, as the C loop does.
   * `pathEnv` is what `getenv("PATH")` returned, `exec` the outcome of
   * `execve` for each path and `errno0` errno on entry.
   */
  method Execvpe(filename: seq<char>, pathEnv: Option<seq<char>>, exec: seq<char> -> ExecOutcome, errno0: nat)
    returns (r: ExecResult)
    requires Valid(filename)
    ensures r == ExecvpePolicy(filename, pathEnv, exec, errno0)
  {
    if |filename| == 0 {
      return ExecResult([], false, -1, Errno.ENOENT);
    }
    if IndexOf(filename, '/').Some? {
      match exec(filename)
      case Replaced => return ExecResult([filename], true, 0, errno0);
      case Failed(e) => return ExecResult([filename], false, -1, e);
    }
    r := SearchPath(pathEnv.GetOr(DEFAULT_PATH), filename, exec, errno0);
  }

  /** The PATH loop of my_execvpe over the value `path`. */
  method SearchPath(path: seq<char>, filename: seq<char>, exec: seq<char> -> ExecOutcome, errno0: nat)
    returns (r: ExecResult)
    ensures r == Search(PathEntries(path), filename, exec, false, errno0)
  {
    ghost var all := Search(PathEntries(path), filename, exec, false, errno0);
    ghost var rem := PathEntries(path);
    var pos := 0;
    var more := true;
    var tried: seq<seq<char>> := [];
    var eacces := false;
    var errno := errno0;
    assert path[0..] == path;
    while more
      invariant pos <= |path|
      invariant more ==> rem == PathEntries(path[pos..])
      invariant !more ==> rem == []
      invariant all == Prepend(tried, Search(rem, filename, exec, eacces, errno))
      decreases if more then |path| - pos + 1 else 0
    {
      var dir;
      dir, pos, more := NextEntry(path, pos);
      ghost var next := if more then PathEntries(path[pos..]) else [];
      var done, res;
      done, res, tried, eacces, errno := TryEntry(dir, next, filename, exec, tried, eacces, errno);
      if done {
        return res;
      }
      rem := next;
    }
    if eacces {
      errno := Errno.EACCES;
    }
    assert tried + [] == tried;
    r := ExecResult(tried, false, -1, errno);
  }

  /**
   * The `strchr(p, ':')` step of the PATH loop: the entry that starts at
   * `pos`, and where the next one starts when a ':' follows it.
   */
  method NextEntry(path: seq<char>, pos: nat) returns (dir: seq<char>, pos': nat, more: bool)
    requires pos <= |path|
    ensures pos' <= |path|
    ensures more ==> pos < pos' && PathEntries(path[pos..]) == [dir] + PathEntries(path[pos'..])
    ensures !more ==> PathEntries(path[pos..]) == [dir]
  {
    var rest := path[pos..];
    match IndexOf(rest, ':') {
      case None =>
        dir, pos', more := rest, pos, false;
      case Some(i) =>
        dir, pos', more := rest[..i], pos + i + 1, true;
        assert rest[i + 1..] == path[pos'..];
    }
  }

  /**
   * One iteration of the PATH loop: tries `dir` unless the path would not
   * fit, and either finishes the search or updates its state.
   */
  method TryEntry(dir: seq<char>, ghost next: seq<seq<char>>, filename: seq<char>, exec: seq<char> -> ExecOutcome,
                  tried: seq<seq<char>>, eacces: bool, errno: nat)
    returns (done: bool, r: ExecResult, tried': seq<seq<char>>, eacces': bool, errno': nat)
    ensures done ==> r == Prepend(tried, Search([dir] + next, filename, exec, eacces, errno))
    ensures !done ==> Prepend(tried', Search(next, filename, exec, eacces', errno'))
                      == Prepend(tried, Search([dir] + next, filename, exec, eacces, errno))
  {
    SearchCons(dir, next, filename, exec, eacces, errno);
    done, r, tried', eacces', errno' := false, ExecResult([], false, -1, errno), tried, eacces, errno;
    if Fits(dir, filename) {
      var c := dir + "/" + filename;
      match exec(c) {
        case Replaced =>
          return true, ExecResult(tried + [c], true, 0, errno), tried, eacces, errno;
        case Failed(e) =>
          if e != Errno.EACCES && e != Errno.ENOENT && e != Errno.ENOTDIR {
            return true, ExecResult(tried + [c], false, -1, e), tried, eacces, errno;
          }
          eacces' := eacces || e == Errno.EACCES;
          errno' := e;
          tried' := tried + [c];
          PrependTwice(tried, c, Search(next, filename, exec, eacces', errno'));
      }
    }
  }

  /** The search over a first entry and the rest, case by case. */
  lemma SearchCons(dir: seq<char>, more: seq<seq<char>>, filename: seq<char>,
                   exec: seq<char> -> ExecOutcome, eacces: bool, errno: nat)
    ensures var all := Search([dir] + more, filename, exec, eacces, errno);
      var c := dir + "/" + filename;
      && (!Fits(dir, filename) ==> all == Search(more, filename, exec, eacces, errno))
      && (Fits(dir, filename) && exec(c).Replaced? ==> all == ExecResult([c], true, 0, errno))
      && (Fits(dir, filename) && exec(c) == Failed(Errno.EACCES) ==>
            all == Prepend([c], Search(more, filename, exec, true, Errno.EACCES)))
      && (Fits(dir, filename) && exec(c).Failed? && exec(c).errno in {Errno.ENOENT, Errno.ENOTDIR} ==>
            all == Prepend([c], Search(more, filename, exec, eacces, exec(c).errno)))
      && (Fits(dir, filename) && exec(c).Failed? && !Continues(exec(c)) ==>
            all == ExecResult([c], false, -1, exec(c).errno))
  {
    assert ([dir] + more)[1..] == more;
  }

  lemma PrependTwice(tried: seq<seq<char>>, c: seq<char>, r: ExecResult)
    ensures Prepend(tried, Prepend([c], r)) == Prepend(tried + [c], r)
  {
    assert tried + ([c] + r.tried) == (tried + [c]) + r.tried;
  }

  /** The search hands `execve` exactly a prefix of the candidates, in PATH order. */
  lemma {:induction false} SearchTriesCandidatePrefix(dirs: seq<seq<char>>, filename: seq<char>,
                                                       exec: seq<char> -> ExecOutcome, eacces: bool, errno: nat)
    ensures Search(dirs, filename, exec, eacces, errno).tried <= Candidates(dirs, filename)
  {
    if |dirs| > 0 {
      if !Fits(dirs[0], filename) {
        SearchTriesCandidatePrefix(dirs[1..], filename, exec, eacces, errno);
      } else {
        match exec(dirs[0] + "/" + filename)
        case Replaced =>
        case Failed(e) =>
          SearchTriesCandidatePrefix(dirs[1..], filename, exec, true, e);
          SearchTriesCandidatePrefix(dirs[1..], filename, exec, eacces, e);
      }
    }
  }

  /**
   * When every candidate fails with EACCES, ENOENT or ENOTDIR, all are tried
   * and -1 is returned; errno is EACCES if any of them (or an earlier one)
   * gave EACCES, and otherwise the error of the last one.
   */
  lemma {:induction false} SearchExhausted(dirs: seq<seq<char>>, filename: seq<char>,
                                           exec: seq<char> -> ExecOutcome, eacces: bool, errno: nat)
    requires forall c | c in Candidates(dirs, filename) :: Continues(exec(c))
    ensures var r := Search(dirs, filename, exec, eacces, errno);
      && r.tried == Candidates(dirs, filename) && !r.replaced && r.ret == -1
      && ((eacces || (exists c | c in Candidates(dirs, filename) :: exec(c) == Failed(Errno.EACCES))) ==> r.errno == Errno.EACCES)
      && (!eacces && (forall c | c in Candidates(dirs, filename) :: exec(c) != Failed(Errno.EACCES)) ==>
            (if |Candidates(dirs, filename)| == 0 then r.errno == errno else r.errno in {Errno.ENOENT, Errno.ENOTDIR}))
  {
    if |dirs| > 0 {
      if Fits(dirs[0], filename) {
        var c := dirs[0] + "/" + filename;
        assert c in Candidates(dirs, filename);
        var e := exec(c).errno;
        SearchExhausted(dirs[1..], filename, exec, eacces || e == Errno.EACCES, e);
      } else {
        SearchExhausted(dirs[1..], filename, exec, eacces, errno);
      }
    }
  }

  /**
   * A candidate whose `execve` succeeds or fails with any other errno ends
   * the search there: the process is replaced, or -1 is returned with that errno.
   */
  lemma {:induction false} SearchStopsAt(dirs: seq<seq<char>>, filename: seq<char>,
                                         exec: seq<char> -> ExecOutcome, eacces: bool, errno: nat, k: nat)
    requires k < |Candidates(dirs, filename)|
    requires forall j | 0 <= j < k :: Continues(exec(Candidates(dirs, filename)[j]))
    requires !Continues(exec(Candidates(dirs, filename)[k]))
    ensures var r := Search(dirs, filename, exec, eacces, errno);
      var c := Candidates(dirs, filename)[k];
      && r.tried == Candidates(dirs, filename)[..k + 1]
      && (r.replaced <==> exec(c).Replaced?)
      && (exec(c).Failed? ==> r.ret == -1 && r.errno == exec(c).errno)
  {
    var cs := Candidates(dirs, filename);
    if Fits(dirs[0], filename) {
      var c := dirs[0] + "/" + filename;
      assert cs[0] == c;
      if k > 0 {
        var rest := Candidates(dirs[1..], filename);
        assert cs == [c] + rest;
        assert forall j | 0 <= j < k - 1 :: rest[j] == cs[j + 1];
        var e := exec(c).errno;
        SearchStopsAt(dirs[1..], filename, exec, eacces || e == Errno.EACCES, e, k - 1);
        assert cs[..k + 1] == [c] + rest[..k];
      }
    } else {
      SearchStopsAt(dirs[1..], filename, exec, eacces, errno, k);
    }
  }
}
