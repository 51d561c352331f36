/**
 * The pure logic of the Windows directory-stream shim: version-aware name
 * comparison, the "\*" search pattern, the wide-character name copy, the
 * buffer contract of the UTF-8 conversion helpers and the directory-entry
 * fill with its "?" fallback. Win32 calls (FindFirstFileExW, the converters
 * themselves) are oracle inputs.
 */
module Dirent {

  import opened Wrappers
  import opened CString
  import CArith
  import Errno

  /** The maximal path length on Windows builds. */
  const PAL_PATH_MAX: nat := 65536

  /** MAX_PATH: the capacity of `WIN32_FIND_DATAW.cFileName`. */
  const MAX_PATH: nat := 260

  /** The capacity of `WIN32_FIND_DATAW.cAlternateFileName`. */
  const ALTERNATE_NAME_MAX: nat := 14

  const FILE_ATTRIBUTE_DIRECTORY: nat := 0x10
  const FILE_ATTRIBUTE_DEVICE: nat := 0x40

  function Min(x: int, y: int): int
  {
    if x <= y then x else y
  }

  // ---------------------------------------------------------------------
  // strverscmp
  // ---------------------------------------------------------------------

  /**
   * The scan for the first difference starting at `i`: the index of the
   * first position where the strings differ, or None when they end together.
   */
  function FirstDifference(a: seq<char>, b: seq<char>, i: nat): (r: Option<nat>)
    requires Valid(a) && Valid(b)
    requires i <= |a| && i <= |b| && a[..i] == b[..i]
    ensures r.None? <==> a == b
    ensures r.Some? ==> i <= r.value <= |a| && r.value <= |b|
    ensures r.Some? ==> a[..r.value] == b[..r.value] && At(a, r.value) != At(b, r.value)
    decreases |a| - i
  {
    if At(a, i) != At(b, i) then Some(i)
    else if At(a, i) == NUL then
      assert a == a[..i] && b == b[..i];
      None
    else
      assert a[..i + 1] == a[..i] + [a[i]] && b[..i + 1] == b[..i] + [b[i]];
      FirstDifference(a, b, i + 1)
  }

  /** Steps back from `i` over the digits of `a` to the start of the digit run. */
  function DigitRunStart(a: seq<char>, i: nat): (j: nat)
    requires i <= |a|
    ensures j <= i
    ensures AllDigits(a[j..i])
    ensures j == 0 || !IsDigit(a[j - 1])
  {
    if i > 0 && IsDigit(a[i - 1]) then
      var j := DigitRunStart(a, i - 1);
      assert a[j..i] == a[j..i - 1] + [a[i - 1]];
      j
    else i
  }

  /** Advances from `j` over the zeros the two strings share. */
  function SkipCommonZeros(a: seq<char>, b: seq<char>, j: nat): (r: nat)
    requires j <= |a|
    ensures j <= r <= |a|
    ensures forall k | j <= k < r :: At(a, k) == '0' && At(b, k) == '0'
    ensures !(At(a, r) == '0' && At(b, r) == '0')
    decreases |a| - j
  {
    if At(a, j) == '0' && At(a, j) == At(b, j) then SkipCommonZeros(a, b, j + 1) else j
  }

  /** Advances from `k` to the end of the digit run of `s`. */
  function DigitRunEnd(s: seq<char>, k: nat): (r: nat)
    requires k <= |s|
    ensures k <= r <= |s|
    ensures AllDigits(s[k..r])
    ensures !IsDigit(At(s, r))
    decreases |s| - k
  {
    if IsDigit(At(s, k)) then
      var r := DigitRunEnd(s, k + 1);
      assert s[k..r] == [s[k]] + s[k + 1..r];
      r
    else k
  }

  /** The unsigned-byte difference `a[i] - b[i]`. */
  function ByteDiff(a: seq<char>, b: seq<char>, i: nat): int
  {
    At(a, i) as int - At(b, i) as int
  }

  /**
   * strverscmp: compares two names as version strings. Runs of digits
   * compare by length when neither has a leading zero; after a common run of
   * zeros, the side that continues with a digit is smaller; everything else
   * compares by the byte at the first difference.
   */
  function StrVersCmp(a: seq<char>, b: seq<char>): (r: int)
    requires Valid(a) && Valid(b)
    ensures r == 0 <==> a == b
  {
    match FirstDifference(a, b, 0)
    case None => 0
    case Some(i) =>
      var j := DigitRunStart(a, i);
      if At(a, j) == '0' || At(b, j) == '0' then
        var z := SkipCommonZeros(a, b, j);
        if IsDigit(At(a, z)) && !IsDigit(At(b, z)) then -1
        else if !IsDigit(At(a, z)) && IsDigit(At(b, z)) then 1
        else ByteDiff(a, b, i)
      else if IsDigit(At(a, j)) && IsDigit(At(b, j)) then
        var k1 := DigitRunEnd(a, j);
        var k2 := DigitRunEnd(b, j);
        if k1 < k2 then -1
        else if k1 > k2 then 1
        else ByteDiff(a, b, i)
      else ByteDiff(a, b, i)
  }

  lemma {:induction false} FirstDifferenceSymmetric(a: seq<char>, b: seq<char>, i: nat)
    requires Valid(a) && Valid(b)
    requires i <= |a| && i <= |b| && a[..i] == b[..i]
    ensures FirstDifference(a, b, i) == FirstDifference(b, a, i)
    decreases |a| - i
  {
    if At(a, i) == At(b, i) && At(a, i) != NUL {
      assert a[..i + 1] == a[..i] + [a[i]] && b[..i + 1] == b[..i] + [b[i]];
      FirstDifferenceSymmetric(a, b, i + 1);
    }
  }

  lemma {:induction false} DigitRunStartOnCommonPrefix(a: seq<char>, b: seq<char>, i: nat)
    requires i <= |a| && i <= |b| && a[..i] == b[..i]
    ensures DigitRunStart(a, i) == DigitRunStart(b, i)
  {
    if i > 0 {
      assert a[i - 1] == a[..i][i - 1] == b[..i][i - 1] == b[i - 1];
      if IsDigit(a[i - 1]) {
        assert a[..i - 1] == a[..i][..i - 1] && b[..i - 1] == b[..i][..i - 1];
        DigitRunStartOnCommonPrefix(a, b, i - 1);
      }
    }
  }

  lemma {:induction false} SkipCommonZerosSymmetric(a: seq<char>, b: seq<char>, j: nat)
    requires j <= |a| && j <= |b|
    ensures SkipCommonZeros(a, b, j) == SkipCommonZeros(b, a, j)
    decreases |a| - j
  {
    if At(a, j) == '0' && At(a, j) == At(b, j) {
      SkipCommonZerosSymmetric(a, b, j + 1);
    }
  }

  /** Swapping the arguments negates the result exactly, as a `qsort` comparator needs. */
  lemma StrVersCmpAntisymmetric(a: seq<char>, b: seq<char>)
    requires Valid(a) && Valid(b)
    ensures StrVersCmp(a, b) == -StrVersCmp(b, a)
  {
    FirstDifferenceSymmetric(a, b, 0);
    match FirstDifference(a, b, 0)
    case None =>
    case Some(i) =>
      DigitRunStartOnCommonPrefix(a, b, i);
      SkipCommonZerosSymmetric(a, b, DigitRunStart(a, i));
  }

  /** The start of a digit run is determined by the run and the non-digit before it. */
  lemma DigitRunStartIs(a: seq<char>, i: nat, j0: nat)
    requires j0 <= i <= |a|
    requires AllDigits(a[j0..i])
    requires j0 == 0 || !IsDigit(a[j0 - 1])
    ensures DigitRunStart(a, i) == j0
  {
    var j := DigitRunStart(a, i);
    if j0 > 0 {
      DigitInRun(a, j, i, j0 - 1);
    }
    if j > 0 {
      DigitInRun(a, j0, i, j - 1);
    }
  }

  /** Every position of a run of digits holds a digit. */
  lemma DigitInRun(a: seq<char>, lo: nat, hi: nat, k: nat)
    requires lo <= hi <= |a| && AllDigits(a[lo..hi])
    ensures lo <= k < hi ==> IsDigit(a[k])
  {
    if lo <= k < hi {
      assert a[k] == a[lo..hi][k - lo];
    }
  }

  /** The end of a digit run is determined by the run and the non-digit after it. */
  lemma DigitRunEndIs(s: seq<char>, k: nat, r0: nat)
    requires k <= r0 <= |s|
    requires AllDigits(s[k..r0])
    requires !IsDigit(At(s, r0))
    ensures DigitRunEnd(s, k) == r0
  {
    var r := DigitRunEnd(s, k);
    DigitInRun(s, k, r0, r);
    DigitInRun(s, k, r, r0);
  }

  /** Where two strings that share `pre` and then diverge before `limit` first differ. */
  lemma FirstDifferenceWithin(a: seq<char>, b: seq<char>, pre: seq<char>, limit: nat)
    requires Valid(a) && Valid(b)
    requires pre <= a && pre <= b && |pre| <= limit
    requires At(a, limit) != At(b, limit)
    ensures FirstDifference(a, b, 0).Some?
    ensures |pre| <= FirstDifference(a, b, 0).value <= limit
  {
    var m := FirstDifference(a, b, 0).value;
    assert forall k | 0 <= k < |pre| :: a[k] == b[k] by {
      forall k | 0 <= k < |pre| ensures a[k] == b[k] { assert a[k] == pre[k] == b[k]; }
    }
    assert forall k | 0 <= k < m :: a[k] == b[k] by {
      forall k | 0 <= k < m ensures a[k] == b[k] { assert a[k] == a[..m][k] == b[..m][k] == b[k]; }
    }
  }

  /** Numbers without leading zeros: the one with more digits is greater, e.g. "999" < "1000". */
  lemma MoreDigitsIsGreater(pre: seq<char>, p: seq<char>, s: seq<char>, q: seq<char>, t: seq<char>)
    requires Valid(pre + p + s) && Valid(pre + q + t)
    requires |pre| == 0 || !IsDigit(pre[|pre| - 1])
    requires 0 < |p| < |q| && AllDigits(p) && AllDigits(q)
    requires p[0] != '0' && q[0] != '0'
    requires !IsDigit(At(s, 0)) && !IsDigit(At(t, 0))
    ensures StrVersCmp(pre + p + s, pre + q + t) == -1
  {
    var a := pre + p + s;
    var b := pre + q + t;
    var i := DifferenceInsideRun(pre, p, s, q, t);
    assert a[|pre|] == p[0] && b[|pre|] == q[0];
    RunEndAfter(pre, p, s);
    RunEndAfter(pre, q, t);
    LongerRunDecides(a, b, i, |pre|);
  }

  /** For the inputs of MoreDigitsIsGreater, the first difference lies in the digit run after `pre`. */
  lemma DifferenceInsideRun(pre: seq<char>, p: seq<char>, s: seq<char>, q: seq<char>, t: seq<char>)
    returns (i: nat)
    requires Valid(pre + p + s) && Valid(pre + q + t)
    requires |pre| == 0 || !IsDigit(pre[|pre| - 1])
    requires 0 < |p| < |q| && AllDigits(p) && AllDigits(q)
    requires !IsDigit(At(s, 0))
    ensures FirstDifference(pre + p + s, pre + q + t, 0) == Some(i)
    ensures DigitRunStart(pre + p + s, i) == |pre|
  {
    var a := pre + p + s;
    var b := pre + q + t;
    var e := |pre| + |p|;
    assert At(a, e) == At(s, 0);
    assert b[e] == q[|p|];
    FirstDifferenceWithin(a, b, pre, e);
    i := FirstDifference(a, b, 0).value;
    assert a[|pre|..i] == p[..i - |pre|];
    DigitRunStartIs(a, i, |pre|);
  }

  /** A digit run written after `pre` ends where the run does. */
  lemma RunEndAfter(pre: seq<char>, p: seq<char>, s: seq<char>)
    requires AllDigits(p) && !IsDigit(At(s, 0))
    ensures DigitRunEnd(pre + p + s, |pre|) == |pre| + |p|
  {
    var a := pre + p + s;
    assert a[|pre|..|pre| + |p|] == p;
    assert At(a, |pre| + |p|) == At(s, 0);
    DigitRunEndIs(a, |pre|, |pre| + |p|);
  }

  /** The comparison in the non-zero digit-run case: the shorter run is the smaller number. */
  lemma LongerRunDecides(a: seq<char>, b: seq<char>, i: nat, j: nat)
    requires Valid(a) && Valid(b)
    requires FirstDifference(a, b, 0) == Some(i) && DigitRunStart(a, i) == j
    requires IsDigit(At(a, j)) && IsDigit(At(b, j)) && At(a, j) != '0' && At(b, j) != '0'
    requires DigitRunEnd(a, j) < DigitRunEnd(b, j)
    ensures StrVersCmp(a, b) == -1
  {
  }

  /** The end of a shared run of zeros is determined by the run and the position after it. */
  lemma SkipCommonZerosIs(a: seq<char>, b: seq<char>, j: nat, r0: nat)
    requires j <= r0 <= |a|
    requires forall k | j <= k < r0 :: At(a, k) == '0' && At(b, k) == '0'
    requires !(At(a, r0) == '0' && At(b, r0) == '0')
    ensures SkipCommonZeros(a, b, j) == r0
  {
  }

  /** After a shared run of zeros, the side that continues with a digit is smaller, e.g. "002" < "00a". */
  lemma LeadingZerosThenDigitIsSmaller(pre: seq<char>, z: seq<char>, d: char, s: seq<char>, t: seq<char>)
    requires Valid(pre + z + [d] + s) && Valid(pre + z + t)
    requires |pre| == 0 || !IsDigit(pre[|pre| - 1])
    requires |z| > 0 && forall k | 0 <= k < |z| :: z[k] == '0'
    requires IsDigit(d) && !IsDigit(At(t, 0))
    ensures StrVersCmp(pre + z + [d] + s, pre + z + t) == -1
  {
    var a := pre + z + [d] + s;
    var b := pre + z + t;
    var e := |pre| + |z|;
    assert a[e] == d && At(b, e) == At(t, 0);
    FirstDifferenceWithin(a, b, pre + z, e);
    assert FirstDifference(a, b, 0) == Some(e);
    assert a[|pre|..e] == z;
    DigitRunStartIs(a, e, |pre|);
    assert At(a, |pre|) == '0';
    assert forall k | |pre| <= k < e :: At(a, k) == '0' && At(b, k) == '0' by {
      forall k | |pre| <= k < e ensures At(a, k) == '0' && At(b, k) == '0' {
        assert a[k] == z[k - |pre|] && b[k] == z[k - |pre|];
      }
    }
    SkipCommonZerosIs(a, b, |pre|, e);
  }

  /**
   * Where neither side has a digit at the first difference, the bytes there
   * decide, e.g. "abc" > "ab" and "file1a" < "file1b": after a shared digit
   * run both the zero scan and the digit counts come out even.
   */
  lemma NonDigitMismatchIsByteOrder(pre: seq<char>, c: char, s: seq<char>, t: seq<char>)
    requires Valid(pre + [c] + s) && Valid(pre + t)
    requires !IsDigit(c) && !IsDigit(At(t, 0)) && c != At(t, 0)
    ensures StrVersCmp(pre + [c] + s, pre + t) == c as int - At(t, 0) as int
  {
    var a := pre + [c] + s;
    var b := pre + t;
    var i := |pre|;
    assert a[i] == c && At(b, i) == At(t, 0);
    FirstDifferenceWithin(a, b, pre, i);
    var j := DigitRunStart(a, i);
    assert a[j..i] == pre[j..i] == b[j..i];
    DigitRunEndIs(a, j, i);
    DigitRunEndIs(b, j, i);
    var z := SkipCommonZeros(a, b, j);
    ZerosStopAt(a, b, j, i);
    DigitInRun(a, j, i, z);
    assert z < i ==> At(b, z) == pre[z] == At(a, z);
  }

  /** The shared zeros end no later than the first position of `a` that is not '0'. */
  lemma ZerosStopAt(a: seq<char>, b: seq<char>, j: nat, i: nat)
    requires j <= i <= |a| && At(a, i) != '0'
    ensures SkipCommonZeros(a, b, j) <= i
  {
    var r := SkipCommonZeros(a, b, j);
    assert i < r ==> At(a, i) == '0';
  }

  // ---------------------------------------------------------------------
  // Opening a directory stream
  // ---------------------------------------------------------------------

  /** The characters after which no '\\' is inserted before the '*' wildcard. */
  predicate IsSeparator(c: char)
  {
    c == '\\' || c == '/' || c == ':'
  }

  /**
   * Appends the search wildcard to an absolute directory name. The pattern
   * names the same directory: what precedes the '*' is the directory followed
   * by at most one inserted '\\'.
   */
  function SearchPattern(dir: seq<char>): (p: seq<char>)
    requires |dir| > 0
    ensures |dir| < |p| <= |dir| + 2 && p[..|dir|] == dir
    ensures p[|p| - 1] == '*' && IsSeparator(p[|p| - 2])
    ensures |p| == |dir| + 1 <==> IsSeparator(dir[|dir| - 1])
    ensures p[..|p| - 1] == dir || p[..|p| - 1] == dir + "\\"
  {
    if IsSeparator(dir[|dir| - 1]) then
      assert (dir + "*")[..|dir|] == dir;
      dir + "*"
    else
      assert (dir + "\\*")[..|dir| + 1] == dir + "\\";
      dir + "\\*"
  }

  datatype OpenResult = OpenFailed(errno: Option<nat>) | Opened(pattern: seq<char>)

  /**
   * pal_opendir: `absolute` is what the path resolution produced (None when
   * it or the wide-path allocation failed), `first` whether the first
   * FindFirstFileExW succeeded.
   */
  function OpenDir(dirpath: seq<char>, absolute: Option<seq<char>>, first: bool): (r: OpenResult)
    requires absolute.Some? ==> |absolute.value| > 0
    ensures |dirpath| == 0 ==> r == OpenFailed(Some(Errno.ENOENT))
    ensures r.Opened? <==> |dirpath| > 0 && absolute.Some? && first
    ensures r.Opened? ==> r.pattern == SearchPattern(absolute.value)
  {
    if |dirpath| == 0 then OpenFailed(Some(Errno.ENOENT))
    else if absolute.None? then OpenFailed(None)
    else
      var p := SearchPattern(absolute.value);
      if first then Opened(p) else OpenFailed(None)
  }

  // ---------------------------------------------------------------------
  // Copying the wide-character name
  // ---------------------------------------------------------------------

  /**
   * The name copy of `_wreaddir_r` as written, into `buf`, the previous
   * contents of the PAL_PATH_MAX-element `d_name`: copies until the NUL or
   * PAL_PATH_MAX characters, then stores the terminator at index `n`.
   * `overrun` reports that this store falls outside `d_name`; the array is
   * then returned without it.
   */
  method CopyNameAsWritten(src: seq<char>, buf: seq<char>) returns (dname: seq<char>, n: nat, overrun: bool)
    requires |buf| == PAL_PATH_MAX
    ensures n == Min(Strlen(src), PAL_PATH_MAX)
    ensures |dname| == PAL_PATH_MAX && dname[..n] == src[..n]
    ensures overrun <==> n >= |dname|
    ensures !overrun ==> dname[n] == NUL && dname[n + 1..] == buf[n + 1..]
    ensures overrun <==> Strlen(src) >= PAL_PATH_MAX
    ensures !overrun ==> Contents(dname) == Contents(src)
    ensures Strlen(src) < MAX_PATH ==> !overrun && Contents(dname) == Contents(src)
  {
    n := 0;
    dname := buf;
    while n < PAL_PATH_MAX && At(src, n) != NUL
      invariant n <= PAL_PATH_MAX && n <= Strlen(src)
      invariant |dname| == PAL_PATH_MAX
      invariant dname[..n] == src[..n]
      invariant dname[n..] == buf[n..]
    {
      dname := dname[n := src[n]];
      n := n + 1;
    }
    overrun := n >= |dname|;
    if !overrun {
      dname := dname[n := NUL];
      assert dname == src[..n] + [NUL] + dname[n + 1..];
      ContentsOfTerminated(src[..n], dname[n + 1..]);
    }
  }

  /**
   * The name copy with the bound corrected to leave room for the terminator:
   * at most PAL_PATH_MAX - 1 characters are copied into `buf`, the previous
   * contents of `d_name`.
   */
  method CopyName(src: seq<char>, buf: seq<char>) returns (dname: seq<char>, namlen: nat)
    requires |buf| == PAL_PATH_MAX
    ensures |dname| == PAL_PATH_MAX
    ensures namlen == Min(Strlen(src), PAL_PATH_MAX - 1)
    ensures dname[..namlen] == src[..namlen] && dname[namlen] == NUL
    ensures dname[namlen + 1..] == buf[namlen + 1..]
    ensures Contents(dname) == Contents(src)[..namlen]
    ensures Strlen(src) < PAL_PATH_MAX ==> Contents(dname) == Contents(src)
  {
    namlen := 0;
    dname := buf;
    while namlen < PAL_PATH_MAX - 1 && At(src, namlen) != NUL
      invariant namlen < PAL_PATH_MAX && namlen <= Strlen(src)
      invariant |dname| == PAL_PATH_MAX
      invariant dname[..namlen] == src[..namlen]
      invariant dname[namlen..] == buf[namlen..]
    {
      dname := dname[namlen := src[namlen]];
      namlen := namlen + 1;
    }
    dname := dname[namlen := NUL];
    assert dname == src[..namlen] + [NUL] + dname[namlen + 1..];
    ContentsOfTerminated(src[..namlen], dname[namlen + 1..]);
  }

  /**
   * The copy as written and the corrected copy leave the same `d_name`
   * exactly for names shorter than PAL_PATH_MAX. That covers every name
   * FindNextFileW reports (`cFileName` holds fewer than MAX_PATH
   * characters), so the overrun is latent there.
   */
  method CopiesAgree(src: seq<char>, buf: seq<char>) returns (asWritten: seq<char>, corrected: seq<char>)
    requires |buf| == PAL_PATH_MAX
    ensures asWritten == corrected <==> Strlen(src) < PAL_PATH_MAX
    ensures Strlen(src) < MAX_PATH ==> asWritten == corrected && Contents(corrected) == Contents(src)
  {
    var n, overrun;
    asWritten, n, overrun := CopyNameAsWritten(src, buf);
    var namlen;
    corrected, namlen := CopyName(src, buf);
    if Strlen(src) < PAL_PATH_MAX {
      assert asWritten == src[..n] + [NUL] + buf[n + 1..];
      assert corrected == src[..n] + [NUL] + buf[n + 1..];
    } else {
      assert asWritten[PAL_PATH_MAX - 1] == src[PAL_PATH_MAX - 1] != NUL;
      assert corrected[PAL_PATH_MAX - 1] == NUL;
    }
  }

  // ---------------------------------------------------------------------
  // UTF-8 conversion helpers
  // ---------------------------------------------------------------------

  /**
   * What `dirent_mbstowcs_s` and `dirent_wcstombs_s` report: the return
   * value, whether errno was set to ERANGE, the length stored through
   * `pReturnValue` (None when left untouched) and the index at which the
   * output buffer was terminated (None when nothing was written).
   */
  datatype Conversion = Conversion(ret: int, erange: bool, reported: Option<nat>, terminator: Option<nat>)

  /**
   * The buffer contract around the converter. `count` and `size` are the
   * caller's arguments (SIZE_MAX meaning "up to the NUL" and "unbounded"),
   * `srcLen` the source length, `hasBuffer` whether an output buffer was
   * passed, and `n` the converter's result.
   */
  function Convert(count: nat, srcLen: nat, size: nat, hasBuffer: bool, n: nat): (c: Conversion)
    ensures c.ret in {0, -1} && (c.ret == -1 <==> c.erange)
    ensures var cnt := if count == CArith.SIZE_MAX then srcLen else count;
      var sz := if size == CArith.SIZE_MAX then CArith.INT_MAX else size;
      && (c.reported.None? <==> cnt > CArith.INT_MAX || sz > CArith.INT_MAX)
      && (c.reported.Some? ==> c.reported.value == n + 1)
      && (c.terminator.Some? ==> c.terminator.value < sz)
      && (c.reported.Some? && hasBuffer && sz > 0 ==> c.terminator.Some?)
      && (c.terminator.Some? && c.ret == 0 ==> c.terminator.value == n)
      && (c.reported.Some? && c.ret == -1 ==> hasBuffer && n >= sz > 0 && c.terminator == Some(sz - 1))
  {
    var cnt := if count == CArith.SIZE_MAX then srcLen else count;
    var sz := if size == CArith.SIZE_MAX then CArith.INT_MAX else size;
    if cnt > CArith.INT_MAX || sz > CArith.INT_MAX then Conversion(-1, true, None, None)
    else if hasBuffer && sz > 0 then
      if n >= sz then Conversion(-1, true, Some(n + 1), Some(sz - 1))
      else Conversion(0, false, Some(n + 1), Some(n))
    else Conversion(0, false, Some(n + 1), None)
  }

  // ---------------------------------------------------------------------
  // Filling a directory entry
  // ---------------------------------------------------------------------

  /** `d_type` of an entry. The numeric DT_* values are not part of this model. */
  datatype DType = DtUnknown | DtChr | DtDir | DtReg

  datatype Entry = Entry(name: seq<char>, namlen: int, dtype: DType, ino: int, off: int, reclen: int)

  /** The type of an entry from its Win32 file attributes: DEVICE wins over DIRECTORY. */
  function EntryType(attr: nat): (t: DType)
    ensures t != DtUnknown
    ensures t == DtChr <==> CArith.HasBit(attr, FILE_ATTRIBUTE_DEVICE)
    ensures t == DtDir <==> !CArith.HasBit(attr, FILE_ATTRIBUTE_DEVICE) && CArith.HasBit(attr, FILE_ATTRIBUTE_DIRECTORY)
  {
    if CArith.HasBit(attr, FILE_ATTRIBUTE_DEVICE) then DtChr
    else if CArith.HasBit(attr, FILE_ATTRIBUTE_DIRECTORY) then DtDir
    else DtReg
  }

  /** The entry stored when neither name converts. */
  const FallbackEntry: Entry := Entry("?", 1, DtUnknown, 0, -1, 0)

  /**
   * readdir_r / pal_readdir for one found file. `attr` is its attribute
   * word, `size` the capacity of `d_name`, `longLen`/`altLen` the lengths of
   * its long and 8.3 names, `longOut`/`altOut` what the converter produces
   * for each, and `entrySize` the size of the entry structure.
   */
  function ReadEntry(attr: nat, size: nat, longLen: nat, longOut: seq<char>,
                     altLen: nat, altOut: seq<char>, entrySize: nat): (e: Entry)
    requires 1 < size <= CArith.INT_MAX && longLen < MAX_PATH && altLen < ALTERNATE_NAME_MAX
    ensures e.namlen == |e.name| < size
    ensures |longOut| < size ==>
      e == Entry(longOut, |longOut|, EntryType(attr), 0, 0, entrySize)
    ensures |longOut| >= size && altLen > 0 && |altOut| < size ==>
      e == Entry(altOut, |altOut|, EntryType(attr), 0, 0, entrySize)
    ensures |longOut| >= size && (altLen == 0 || |altOut| >= size) ==> e == FallbackEntry
  {
    var first := Convert(CArith.SIZE_MAX, longLen, size, true, |longOut|);
    var useAlternate := first.ret != 0 && altLen > 0;
    var c := if useAlternate then Convert(CArith.SIZE_MAX, altLen, size, true, |altOut|) else first;
    var name := if useAlternate then altOut else longOut;
    if c.ret == 0 then Entry(name, c.reported.value - 1, EntryType(attr), 0, 0, entrySize)
    else FallbackEntry
  }

  /** An entry is the fallback exactly when its offset is -1, and only the fallback has DT_UNKNOWN. */
  lemma ReadEntryFallbackIffUnknown(attr: nat, size: nat, longLen: nat, longOut: seq<char>,
                                    altLen: nat, altOut: seq<char>, entrySize: nat)
    requires 1 < size <= CArith.INT_MAX && longLen < MAX_PATH && altLen < ALTERNATE_NAME_MAX
    ensures var e := ReadEntry(attr, size, longLen, longOut, altLen, altOut, entrySize);
      (e.off == -1 <==> e.dtype == DtUnknown) && (e.dtype == DtUnknown <==> e == FallbackEntry)
  {
  }
}
