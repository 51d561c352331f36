/**
 * The hosted layer: the single-block layout that packs the narrowed
 * argument and environment strings behind their pointer tables, and the
 * thin descriptor and allocation wrappers. The UTF-16 to UTF-8 converter
 * is an oracle: its output for each wide string is given as the narrow
 * string it produces.
 */
module PortHosted {

  import opened Wrappers
  import opened CString
  import opened PortShared
  import Errno

  // ---------------------------------------------------------------------
  // pal_process_info_create_wchar
  // ---------------------------------------------------------------------

  /** `sizeof(char **)` on the 64-bit targets. */
  const PTR_SIZE: nat := 8

  /** `((n + ptr_size - 1) / ptr_size) * ptr_size`: `n` rounded up to a pointer multiple. */
  function RoundUp(n: nat): (r: nat)
    ensures n <= r < n + PTR_SIZE
    ensures r % PTR_SIZE == 0
  {
    ((n + PTR_SIZE - 1) / PTR_SIZE) * PTR_SIZE
  }


  /** Where string `i` starts when `strs` are packed with their terminators: the bytes before it. */
  function Offset(strs: seq<seq<char>>, i: nat): nat
    requires i <= |strs|
  {
    if i == 0 then 0 else Offset(strs, i - 1) + |strs[i - 1]| + 1
  }

  /** The bytes a run of strings takes when packed with their terminators. */
  function PackedLength(strs: seq<seq<char>>): nat
  {
    Offset(strs, |strs|)
  }

  /** The strings of a pointer array before index `n`. */
  function Prefix<T>(p: PtrArray<T>, n: nat): (r: seq<T>)
    requires n <= |p|
    requires forall k | 0 <= k < n :: p[k].Some?
    ensures |r| == n
    ensures forall k | 0 <= k < n :: r[k] == p[k].value
  {
    if n == 0 then [] else Prefix(p, n - 1) + [p[n - 1].value]
  }

  /** `buf` holds `s` followed by its terminator at offset `o`. */
  predicate HoldsAt(buf: seq<char>, o: nat, s: seq<char>)
  {
    o + |s| < |buf| && buf[o..o + |s|] == s && buf[o + |s|] == NUL
  }

  /** A string stored with its terminator reads back from its offset. */
  lemma HoldsAtReadsBack(buf: seq<char>, o: nat, s: seq<char>)
    requires Valid(s)
    requires HoldsAt(buf, o, s)
    ensures Contents(buf[o..]) == s
  {
    assert buf[o..] == s + [NUL] + buf[o + |s| + 1..];
    ContentsOfTerminated(s, buf[o + |s| + 1..]);
  }

  /** Appending keeps every string already stored where it was. */
  lemma HoldsAtAppend(buf: seq<char>, o: nat, s: seq<char>, more: seq<char>)
    requires HoldsAt(buf, o, s)
    ensures HoldsAt(buf + more, o, s)
  {
    assert (buf + more)[o..o + |s|] == buf[o..o + |s|];
  }

  /**
   * The block pal_process_info_create_wchar allocates, with every position
   * a byte offset from its start: the info record, the argv table, the envp
   * table, then the string area. Table entries are offsets, None for NULL.
   */
  datatype Layout = Layout(
    size: nat,
    argvTable: nat, argv: PtrArray<nat>,
    envpTable: nat, envp: PtrArray<nat>, envc: nat,
    strings: nat, text: seq<char>)

  /**
   * The offsets of consecutive strings packed from `base`: string `i`
   * starts after the packed strings before it, and a NULL closes the table.
   */
  predicate PackedFrom(table: PtrArray<nat>, base: nat, strs: seq<seq<char>>)
  {
    |table| == |strs| + 1 && table[|strs|].None? &&
    forall i | 0 <= i < |strs| :: table[i] == Some(base + Offset(strs, i))
  }

  /** `text` holds string `i` of `strs` where packing from offset `at` puts it. */
  predicate StringAt(text: seq<char>, at: nat, strs: seq<seq<char>>, i: nat)
    requires i < |strs|
  {
    HoldsAt(text, at + Offset(strs, i), strs[i])
  }

  /** `text` holds the first `n` strings one after another, with their terminators, from offset `at`. */
  predicate PackedIn(text: seq<char>, at: nat, strs: seq<seq<char>>, n: nat)
    requires n <= |strs|
  {
    forall i | 0 <= i < n :: StringAt(text, at, strs, i)
  }

  /** Appending to the text keeps the packed strings in place. */
  lemma PackedInAppend(text: seq<char>, at: nat, strs: seq<seq<char>>, n: nat, more: seq<char>)
    requires n <= |strs|
    requires PackedIn(text, at, strs, n)
    ensures PackedIn(text + more, at, strs, n)
  {
    forall i | 0 <= i < n
      ensures StringAt(text + more, at, strs, i)
    {
      assert StringAt(text, at, strs, i);
      HoldsAtAppend(text, at + Offset(strs, i), strs[i], more);
    }
  }

  /** A string written with its terminator at the end of a buffer is held there. */
  lemma HoldsAtEnd(text: seq<char>, s: seq<char>)
    ensures HoldsAt(text + s + [NUL], |text|, s)
  {
    assert (text + s + [NUL])[|text|..|text| + |s|] == s;
  }

  /** Writing the next string and its terminator at the end packs it after the others. */
  lemma PackedInExtend(text: seq<char>, at: nat, strs: seq<seq<char>>, n: nat, more: seq<char>)
    requires n < |strs| && more == strs[n] + [NUL]
    requires PackedIn(text, at, strs, n)
    requires |text| == at + Offset(strs, n)
    ensures PackedIn(text + more, at, strs, n + 1)
  {
    HoldsAtEnd(text, strs[n]);
    PackedInAppend(text, at, strs, n, more);
    assert text + strs[n] + [NUL] == text + more;
  }

  /** `table` holds the offsets from `base` of the first `n` packed strings. */
  predicate OffsetsUpTo(table: PtrArray<nat>, base: nat, strs: seq<seq<char>>, n: nat)
    requires n <= |strs|
  {
    |table| == n && forall j | 0 <= j < n :: table[j] == Some(base + Offset(strs, j))
  }

  lemma OffsetsUpToExtend(table: PtrArray<nat>, base: nat, strs: seq<seq<char>>, n: nat)
    requires n < |strs| && OffsetsUpTo(table, base, strs, n)
    ensures OffsetsUpTo(table + [Some(base + Offset(strs, n))], base, strs, n + 1)
  {
  }

  /** Packs `strs` after `text`, building the table of their offsets from `base`. */
  method PackStrings(text: seq<char>, base: nat, strs: seq<seq<char>>)
    returns (table: PtrArray<nat>, text': seq<char>)
    ensures text <= text'
    ensures |text'| == |text| + PackedLength(strs)
    ensures PackedFrom(table, base + |text|, strs)
    ensures PackedIn(text', |text|, strs, |strs|)
  {
    text' := text;
    table := [];
    var i := 0;
    while i < |strs|
      invariant i <= |strs|
      invariant text <= text'
      invariant |text'| == |text| + Offset(strs, i)
      invariant OffsetsUpTo(table, base + |text|, strs, i)
      invariant PackedIn(text', |text|, strs, i)
    {
      var more := strs[i] + [NUL];
      PackedInExtend(text', |text|, strs, i, more);
      OffsetsUpToExtend(table, base + |text|, strs, i);
      table := table + [Some(base + |text'|)];
      text' := text' + more;
      i := i + 1;
    }
    table := table + [None];
  }

  /**
   * pal_process_info_create_wchar: counts envp up to its NULL, sizes the
   * block as the info record, argc + 1 + envc + 1 pointer slots and the
   * string bytes rounded up to a pointer multiple, then packs argv and envp
   * contiguously into the string area behind NULL-terminated tables.
   * `text` is the string area, indexed from `strings`.
   */
  method CreateWide(infoSize: nat, argv: seq<seq<char>>, envp: PtrArray<seq<char>>) returns (l: Layout)
    requires Terminated(envp)
    ensures CountsEntries(envp, l.envc)
    ensures l.argvTable == infoSize
    ensures l.envpTable == l.argvTable + (|argv| + 1) * PTR_SIZE
    ensures l.strings == l.envpTable + (l.envc + 1) * PTR_SIZE
    ensures |l.text| == PackedLength(argv) + PackedLength(Prefix(envp, l.envc))
    ensures l.size == l.strings + RoundUp(|l.text|)
    ensures PackedFrom(l.argv, l.strings, argv)
    ensures PackedFrom(l.envp, l.strings + PackedLength(argv), Prefix(envp, l.envc))
    ensures PackedIn(l.text, 0, argv, |argv|)
    ensures PackedIn(l.text, PackedLength(argv), Prefix(envp, l.envc), l.envc)
  {
    var envc := CountEntries(envp);
    var env := Prefix(envp, envc);
    var argvTable := infoSize;
    var envpTable := argvTable + (|argv| + 1) * PTR_SIZE;
    var strings := envpTable + (envc + 1) * PTR_SIZE;
    var argvPtrs, text := PackStrings([], strings, argv);
    var envpPtrs, text' := PackStrings(text, strings, env);
    assert text' == text + text'[|text|..];
    PackedInAppend(text, 0, argv, |argv|, text'[|text|..]);
    l := Layout(strings + RoundUp(|text'|), argvTable, argvPtrs, envpTable, envpPtrs, envc, strings, text');
  }

  /**
   * A table entry of the block points into its string area, the string and
   * its terminator end inside the allocation, and reading the C string
   * there gives `s`.
   */
  predicate ReadsBack(l: Layout, entry: Option<nat>, s: seq<char>)
  {
    entry.Some? && l.strings <= entry.value && entry.value + |s| < l.size &&
    entry.value - l.strings <= |l.text| && Contents(l.text[entry.value - l.strings..]) == s
  }

  /**
   * Every table entry of the packed block reads back the string it stands
   * for, and every string with its terminator lies inside the allocation.
   */
  lemma CreateWideReadsBack(argv: seq<seq<char>>, envp: PtrArray<seq<char>>, l: Layout)
    requires forall i | 0 <= i < |argv| :: Valid(argv[i])
    requires CountsEntries(envp, l.envc)
    requires forall i | 0 <= i < l.envc :: Valid(envp[i].value)
    requires |l.text| == PackedLength(argv) + PackedLength(Prefix(envp, l.envc))
    requires l.size == l.strings + RoundUp(|l.text|)
    requires PackedFrom(l.argv, l.strings, argv) && PackedIn(l.text, 0, argv, |argv|)
    requires PackedFrom(l.envp, l.strings + PackedLength(argv), Prefix(envp, l.envc))
    requires PackedIn(l.text, PackedLength(argv), Prefix(envp, l.envc), l.envc)
    ensures forall i | 0 <= i < |argv| :: ReadsBack(l, l.argv[i], argv[i])
    ensures forall i | 0 <= i < l.envc :: ReadsBack(l, l.envp[i], envp[i].value)
  {
    assert l.size >= l.strings + |l.text|;
    TableReadsBack(l, l.argv, 0, argv);
    EnvTableReadsBack(argv, envp, l);
  }

  /** Every entry of a table packed at `at` in the string area reads back its string. */
  lemma TableReadsBack(l: Layout, table: PtrArray<nat>, at: nat, strs: seq<seq<char>>)
    requires forall i | 0 <= i < |strs| :: Valid(strs[i])
    requires l.size >= l.strings + |l.text|
    requires PackedFrom(table, l.strings + at, strs)
    requires PackedIn(l.text, at, strs, |strs|)
    ensures forall i | 0 <= i < |strs| :: ReadsBack(l, table[i], strs[i])
  {
    forall i | 0 <= i < |strs|
      ensures ReadsBack(l, table[i], strs[i])
    {
      EntryReadsBack(l, table, at, strs, i);
    }
  }

  lemma EnvTableReadsBack(argv: seq<seq<char>>, envp: PtrArray<seq<char>>, l: Layout)
    requires CountsEntries(envp, l.envc)
    requires forall i | 0 <= i < l.envc :: Valid(envp[i].value)
    requires l.size >= l.strings + |l.text|
    requires PackedFrom(l.envp, l.strings + PackedLength(argv), Prefix(envp, l.envc))
    requires PackedIn(l.text, PackedLength(argv), Prefix(envp, l.envc), l.envc)
    ensures forall i | 0 <= i < l.envc :: ReadsBack(l, l.envp[i], envp[i].value)
  {
    forall i | 0 <= i < l.envc
      ensures ReadsBack(l, l.envp[i], envp[i].value)
    {
      EnvEntryReadsBack(argv, envp, l, i);
    }
  }

  lemma EnvEntryReadsBack(argv: seq<seq<char>>, envp: PtrArray<seq<char>>, l: Layout, i: nat)
    requires CountsEntries(envp, l.envc)
    requires i < l.envc && Valid(envp[i].value)
    requires l.size >= l.strings + |l.text|
    requires PackedFrom(l.envp, l.strings + PackedLength(argv), Prefix(envp, l.envc))
    requires PackedIn(l.text, PackedLength(argv), Prefix(envp, l.envc), l.envc)
    ensures ReadsBack(l, l.envp[i], envp[i].value)
  {
    var env := Prefix(envp, l.envc);
    assert env[i] == envp[i].value;
    EntryReadsBack(l, l.envp, PackedLength(argv), env, i);
  }

  /** Entry `i` of a table packed at `at` in the string area reads back string `i`. */
  lemma EntryReadsBack(l: Layout, table: PtrArray<nat>, at: nat, strs: seq<seq<char>>, i: nat)
    requires i < |strs| && Valid(strs[i])
    requires l.size >= l.strings + |l.text|
    requires PackedFrom(table, l.strings + at, strs)
    requires PackedIn(l.text, at, strs, |strs|)
    ensures ReadsBack(l, table[i], strs[i])
  {
    assert StringAt(l.text, at, strs, i);
    HoldsAtReadsBack(l.text, at + Offset(strs, i), strs[i]);
  }

  // ---------------------------------------------------------------------
  // pal_close, pal_free, pal_file_get
  // ---------------------------------------------------------------------

  /** The outcome of pal_close: its result, the errno it set, and the descriptor it passed to `close`. */
  datatype CloseOutcome = CloseOutcome(ret: int, errno: Option<nat>, closed: Option<int>)

  /** pal_close: `close` on a non-negative descriptor (returning `closeResult`), EINVAL otherwise. */
  function Close(fd: int, closeResult: int): (r: CloseOutcome)
    ensures r.closed.Some? <==> fd >= 0
    ensures r.closed.Some? ==> r.closed.value == fd && r.ret == closeResult && r.errno.None?
    ensures r.closed.None? ==> r.ret == -1 && r.errno == Some(Errno.EINVAL)
  {
    if fd >= 0 then CloseOutcome(closeResult, None, Some(fd))
    else CloseOutcome(-1, Some(Errno.EINVAL), None)
  }

  /** pal_free: the pointers handed to `free`, none for NULL. */
  function Free(ptr: Option<nat>): (freed: seq<nat>)
    ensures |freed| <= 1
    ensures freed == [] <==> ptr.None?
    ensures ptr.Some? ==> freed == [ptr.value]
  {
    if ptr.Some? then [ptr.value] else []
  }

  /** pal_file_type_t. */
  datatype FileType = Stdin | Stdout | Stderr

  /** pal_file_get: the enumerator's value is the descriptor. */
  function FileGet(t: FileType): (fd: int)
    ensures 0 <= fd <= 2
  {
    match t
    case Stdin => 0
    case Stdout => 1
    case Stderr => 2
  }

  /** The three streams are the standard descriptors, and distinct ones. */
  lemma FileGetStandardDescriptors(a: FileType, b: FileType)
    ensures FileGet(Stdin) == 0 && FileGet(Stdout) == 1 && FileGet(Stderr) == 2
    ensures FileGet(a) == FileGet(b) <==> a == b
  {
  }
}
