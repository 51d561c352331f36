/**
 * Platform-independent helpers: the fopen mode parser, the "."/".." filter
 * of the directory lister, process-information setup and the allocation
 * helpers. `malloc` is an oracle: the block it returns, or None.
 */
module PortShared {

  import opened Wrappers
  import opened CString
  import CArith

  // ---------------------------------------------------------------------
  // pal_open_flags
  // ---------------------------------------------------------------------

  /** open(2) flag values (Linux numbering); the bits are disjoint, so `|` is `+`. */
  const O_RDONLY: nat := 0
  const O_WRONLY: nat := 1
  const O_RDWR: nat := 2
  const O_CREAT: nat := 0x40
  const O_TRUNC: nat := 0x200
  const O_APPEND: nat := 0x400

  /** The characters a mode string may contain. */
  const MODE_CHARS: seq<char> := "rwa+b"

  /** `strspn(s, accept)`: the length of the prefix of `s` made of characters of `accept`. */
  function Span(s: seq<char>, accept: seq<char>): (n: nat)
    ensures n <= |s|
    ensures forall k | 0 <= k < n :: s[k] in accept
    ensures n < |s| ==> s[n] !in accept
  {
    if |s| == 0 || s[0] !in accept then 0 else 1 + Span(s[1..], accept)
  }

  /**
   * The flag word chosen from which mode letters occur: '+' selects O_RDWR,
   * and 'a' takes precedence over 'w', which takes precedence over 'r'.
   */
  function FlagsFor(r: bool, w: bool, a: bool, plus: bool): (flags: int)
    ensures flags == -1 <==> !r && !w && !a
    ensures flags != -1 ==> flags % 4 == (if plus then O_RDWR else if a || w then O_WRONLY else O_RDONLY)
    ensures flags != -1 ==> (CArith.HasBit(flags, O_CREAT) <==> a || w)
    ensures flags != -1 ==> (CArith.HasBit(flags, O_APPEND) <==> a)
    ensures flags != -1 ==> (CArith.HasBit(flags, O_TRUNC) <==> w && !a)
  {
    if plus then
      if a then O_RDWR + O_CREAT + O_APPEND
      else if w then O_RDWR + O_CREAT + O_TRUNC
      else if r then O_RDWR
      else -1
    else
      if a then O_WRONLY + O_CREAT + O_APPEND
      else if w then O_WRONLY + O_CREAT + O_TRUNC
      else if r then O_RDONLY
      else -1
  }

  /**
   * pal_open_flags: rejects a mode with a character outside "rwa+b", then
   * scans it for the letters that select the flags. `expected` is unused.
   */
  method OpenFlags(mode: seq<char>, expected: seq<char>) returns (flags: int)
    requires Valid(mode)
    ensures (exists k | 0 <= k < |mode| :: mode[k] !in MODE_CHARS) ==> flags == -1
    ensures (forall k | 0 <= k < |mode| :: mode[k] in MODE_CHARS) ==>
      flags == FlagsFor('r' in mode, 'w' in mode, 'a' in mode, '+' in mode)
  {
    if At(mode, Span(mode, MODE_CHARS)) != NUL {
      return -1;
    }
    var hasR, hasW, hasA, hasPlus := false, false, false, false;
    var i := 0;
    while i < |mode|
      invariant i <= |mode|
      invariant hasR <==> 'r' in mode[..i]
      invariant hasW <==> 'w' in mode[..i]
      invariant hasA <==> 'a' in mode[..i]
      invariant hasPlus <==> '+' in mode[..i]
    {
      assert mode[..i + 1] == mode[..i] + [mode[i]];
      if mode[i] == 'r' { hasR := true; }
      if mode[i] == 'w' { hasW := true; }
      if mode[i] == 'a' { hasA := true; }
      if mode[i] == '+' { hasPlus := true; }
      i := i + 1;
    }
    assert mode[..i] == mode;
    flags := FlagsFor(hasR, hasW, hasA, hasPlus);
  }

  /** The table of the six accepted modes of section 7.21.5.3 of ISO C11, with 'b' ignored. */
  lemma OpenFlagsTable()
    ensures FlagsFor(true, false, false, false) == O_RDONLY
    ensures FlagsFor(false, true, false, false) == O_WRONLY + O_CREAT + O_TRUNC
    ensures FlagsFor(false, false, true, false) == O_WRONLY + O_CREAT + O_APPEND
    ensures FlagsFor(true, false, false, true) == O_RDWR
    ensures FlagsFor(false, true, false, true) == O_RDWR + O_CREAT + O_TRUNC
    ensures FlagsFor(false, false, true, true) == O_RDWR + O_CREAT + O_APPEND
  {
  }

  // ---------------------------------------------------------------------
  // pal__fs_scandir_filter
  // ---------------------------------------------------------------------

  /** The directory-listing filter: keeps every name except "." and "..". */
  function ScandirFilter(name: seq<char>): (keep: bool)
    requires Valid(name)
    ensures keep <==> name != "." && name != ".."
  {
    StrcmpZeroIffEqual(name, ".");
    StrcmpZeroIffEqual(name, "..");
    Strcmp(name, ".") != 0 && Strcmp(name, "..") != 0
  }

  // ---------------------------------------------------------------------
  // pal_process_info_initialize
  // ---------------------------------------------------------------------

  /** `(uint32_t)-1`: the envc value that asks for envp to be counted. */
  const ENVC_UNKNOWN: nat := 0xFFFF_FFFF

  /** A NULL-terminated pointer array: the entries, None standing for NULL. */
  type PtrArray<T> = seq<Option<T>>

  /** The array holds a NULL entry, so a scan for the terminator stops inside it. */
  predicate Terminated<T>(p: PtrArray<T>)
  {
    exists i | 0 <= i < |p| :: p[i].None?
  }

  /** `n` is the number of entries before the first NULL. */
  predicate CountsEntries<T>(p: PtrArray<T>, n: nat)
  {
    n < |p| && p[n].None? && forall k | 0 <= k < n :: p[k].Some?
  }

  /** The entries before the first NULL of an array. */
  method CountEntries<T>(p: PtrArray<T>) returns (n: nat)
    requires Terminated(p)
    ensures CountsEntries(p, n)
  {
    n := 0;
    while p[n].Some?
      invariant n < |p|
      invariant forall k | 0 <= k < n :: p[k].Some?
      invariant exists i | n <= i < |p| :: p[i].None?
      decreases |p| - n
    {
      n := n + 1;
    }
  }

  datatype ProcessInfo = ProcessInfo(argc: nat, argv: PtrArray<seq<char>>, envc: nat, envp: PtrArray<seq<char>>)

  /** pal_process_info_initialize: stores its arguments, counting envp when envc is the sentinel. */
  method InitializeProcessInfo(argc: nat, argv: PtrArray<seq<char>>, envc: nat, envp: PtrArray<seq<char>>)
    returns (info: ProcessInfo)
    requires envc == ENVC_UNKNOWN ==> Terminated(envp)
    ensures info.argc == argc && info.argv == argv && info.envp == envp
    ensures envc != ENVC_UNKNOWN ==> info.envc == envc
    ensures envc == ENVC_UNKNOWN ==> CountsEntries(envp, info.envc)
  {
    var count := envc;
    if envc == ENVC_UNKNOWN {
      count := CountEntries(envp);
    }
    info := ProcessInfo(argc, argv, count, envp);
  }

  // ---------------------------------------------------------------------
  // pal_mallocz, pal_strdup
  // ---------------------------------------------------------------------

  /** pal_mallocz: the block `malloc` returned, zero-filled, or None when it failed. */
  function Mallocz(size: nat, block: Option<seq<int>>): (r: Option<seq<int>>)
    requires block.Some? ==> |block.value| == size
    ensures r.Some? <==> block.Some?
    ensures r.Some? ==> |r.value| == size && forall i | 0 <= i < size :: r.value[i] == 0
  {
    if block.None? then None else Some(seq(size, _ => 0))
  }

  /** pal_strdup: a copy of `s` with its terminator in a block of strlen + 1 characters. */
  function Strdup(s: seq<char>, block: Option<seq<char>>): (r: Option<seq<char>>)
    requires Valid(s)
    requires block.Some? ==> |block.value| == |s| + 1
    ensures r.Some? <==> block.Some?
    ensures r.Some? ==> |r.value| == |s| + 1 && r.value[|s|] == NUL
    ensures r.Some? ==> Contents(r.value) == s
  {
    if block.None? then None
    else
      ContentsOfTerminated(s, []);
      assert s + [NUL] + [] == s + [NUL];
      Some(s + [NUL])
  }
}
