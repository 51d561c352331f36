/**
 * The address handling of the debugger transport: the socket-address
 * length by family, and the parser of "host:port" strings. Name
 * resolution (`gethostbyname`, `inet_pton`) is given as oracle functions
 * of the host string.
 */
module DebuggerTransport {

  import opened Wrappers
  import opened CString

  /** Address families (Linux numbering) and the sizes of their socket addresses. */
  const AF_UNSPEC: nat := 0
  const AF_INET: nat := 2
  const AF_INET6: nat := 10
  const SOCKADDR_IN_SIZE: nat := 16
  const SOCKADDR_IN6_SIZE: nat := 28

  /** The size of the stack buffer the host name is copied into. */
  const HOST_BUFFER_SIZE: nat := 256

  /** `uint16_t` range: the port field of a socket address. */
  const PORT_LIMIT: nat := 0x1_0000

  // ---------------------------------------------------------------------
  // js_debugger_sockaddr_length
  // ---------------------------------------------------------------------

  /** js_debugger_sockaddr_length: the address size for the stored family, -1 for any other. */
  function SockaddrLength(family: nat): (n: int)
    ensures n == -1 <==> family != AF_INET && family != AF_INET6
    ensures family == AF_INET ==> n == SOCKADDR_IN_SIZE
    ensures family == AF_INET6 ==> n == SOCKADDR_IN6_SIZE
  {
    if family == AF_INET then SOCKADDR_IN_SIZE
    else if family == AF_INET6 then SOCKADDR_IN6_SIZE
    else -1
  }

  // ---------------------------------------------------------------------
  // atoi
  // ---------------------------------------------------------------------

  /** The characters `isspace` accepts in the "C" locale. */
  predicate IsSpace(c: char)
  {
    c == ' ' || c == '\t' || c == '\n' || c == '\U{B}' || c == '\U{C}' || c == '\r'
  }

  /** The length of the run of decimal digits that starts `s`. */
  function DigitPrefix(s: seq<char>): (n: nat)
    ensures n <= |s|
    ensures n < |s| ==> !IsDigit(s[n])
  {
    if |s| == 0 || !IsDigit(s[0]) then 0 else DigitPrefix(s[1..]) + 1
  }

  /** The run DigitPrefix measures is made of digits. */
  lemma {:induction false} DigitPrefixDigits(s: seq<char>)
    ensures AllDigits(s[..DigitPrefix(s)])
  {
    if |s| > 0 && IsDigit(s[0]) {
      var k := DigitPrefix(s[1..]);
      DigitPrefixDigits(s[1..]);
      assert s[..k + 1] == [s[0]] + s[1..][..k];
    }
  }

  /** A digit run followed by a non-digit is read to its end. */
  lemma {:induction false} DigitPrefixOfRun(d: seq<char>, rest: seq<char>)
    requires AllDigits(d)
    requires |rest| == 0 || !IsDigit(rest[0])
    ensures DigitPrefix(d + rest) == |d|
  {
    if |d| > 0 {
      assert (d + rest)[1..] == d[1..] + rest;
      DigitPrefixOfRun(d[1..], rest);
    }
  }

  /**
   * `atoi`: skips leading white space, reads an optional sign and the
   * digits after it, and yields 0 when there are none. Overflow, which C
   * leaves undefined, is not modelled.
   */
  function Atoi(s: seq<char>): int
  {
    if |s| > 0 && IsSpace(s[0]) then Atoi(s[1..])
    else if |s| > 0 && s[0] == '-' then -(LeadingValue(s[1..]) as int)
    else if |s| > 0 && s[0] == '+' then LeadingValue(s[1..])
    else LeadingValue(s)
  }

  /** The value of the run of decimal digits that starts `u`, 0 when there is none. */
  function LeadingValue(u: seq<char>): nat
  {
    DigitPrefixDigits(u);
    DecimalValue(u[..DigitPrefix(u)])
  }

  /** Text without a digit, such as a missing or non-numeric port, reads as 0. */
  lemma {:induction false} AtoiWithoutDigits(s: seq<char>)
    requires forall k | 0 <= k < |s| :: !IsDigit(s[k])
    ensures Atoi(s) == 0
  {
    if |s| > 0 && IsSpace(s[0]) {
      AtoiWithoutDigits(s[1..]);
    } else if |s| > 0 && (s[0] == '-' || s[0] == '+') {
      assert |s| > 1 ==> s[1..][0] == s[1];
      assert s[1..][..DigitPrefix(s[1..])] == [];
    } else {
      assert s[..DigitPrefix(s)] == [];
    }
  }

  /** The digits of a printed number, whatever non-digit text follows them, read back as the number. */
  lemma LeadingValueOfDecimal(n: nat, rest: seq<char>)
    requires |rest| == 0 || !IsDigit(rest[0])
    ensures LeadingValue(Decimal(n) + rest) == n
  {
    var d := Decimal(n);
    DigitPrefixOfRun(d, rest);
    assert (d + rest)[..|d|] == d;
    DecimalRoundTrip(n);
  }

  /** `atoi` reads back a printed number, whatever non-digit text follows it. */
  lemma AtoiDecimal(n: nat, rest: seq<char>)
    requires |rest| == 0 || !IsDigit(rest[0])
    ensures Atoi(Decimal(n) + rest) == n
  {
    var s := Decimal(n) + rest;
    assert s[0] == Decimal(n)[0] && IsDigit(s[0]);
    LeadingValueOfDecimal(n, rest);
  }

  /** `atoi` reads back a printed negative number. */
  lemma AtoiNegativeDecimal(n: nat, rest: seq<char>)
    requires |rest| == 0 || !IsDigit(rest[0])
    ensures Atoi(['-'] + Decimal(n) + rest) == -(n as int)
  {
    var t := Decimal(n) + rest;
    assert ['-'] + Decimal(n) + rest == ['-'] + t;
    AtoiOfMinus(t);
    LeadingValueOfDecimal(n, rest);
  }

  lemma AtoiOfMinus(t: seq<char>)
    ensures Atoi(['-'] + t) == -(LeadingValue(t) as int)
  {
    assert (['-'] + t)[1..] == t;
  }

  // ---------------------------------------------------------------------
  // js_debugger_parse_sockaddr
  // ---------------------------------------------------------------------

  /** What `gethostbyname` found: the address type and its raw bytes. */
  datatype HostEntry = HostEntry(addrtype: nat, addr: seq<nat>)

  /** The socket address the parser fills in; AF_UNSPEC stands for the zeroed storage. */
  datatype SockAddr = SockAddr(family: nat, port: nat, addr: seq<nat>)

  /** The three resolvers, tried in this order. */
  datatype Resolver = Resolver(
    byName: seq<char> -> Option<HostEntry>,
    pton4: seq<char> -> Option<seq<nat>>,
    pton6: seq<char> -> Option<seq<nat>>)

  /**
   * The resolution step: a host entry of either family wins, and an entry
   * of any other family leaves the storage unset; only when the name does
   * not resolve are the IPv4 and then the IPv6 literal forms tried.
   */
  function Resolve(host: seq<char>, port: nat, res: Resolver): (a: Option<SockAddr>)
    ensures a.Some? ==> a.value.port == port && SockaddrLength(a.value.family) > 0
    ensures res.byName(host).Some? ==>
      (a.Some? <==> res.byName(host).value.addrtype in {AF_INET, AF_INET6}) &&
      (a.Some? ==> a.value.family == res.byName(host).value.addrtype && a.value.addr == res.byName(host).value.addr)
    ensures res.byName(host).None? && res.pton4(host).Some? ==> a == Some(SockAddr(AF_INET, port, res.pton4(host).value))
    ensures res.byName(host).None? && res.pton4(host).None? ==>
      (a.Some? <==> res.pton6(host).Some?) &&
      (a.Some? ==> a.value == SockAddr(AF_INET6, port, res.pton6(host).value))
  {
    match res.byName(host)
    case Some(h) =>
      if h.addrtype == AF_INET || h.addrtype == AF_INET6 then Some(SockAddr(h.addrtype, port, h.addr)) else None
    case None =>
      match res.pton4(host)
      case Some(a4) => Some(SockAddr(AF_INET, port, a4))
      case None =>
        match res.pton6(host)
        case Some(a6) => Some(SockAddr(AF_INET6, port, a6))
        case None => None
  }

  /**
   * The parser's outcome: its result, the storage it copied out (None when
   * the caller's storage is left untouched), and the host it resolved.
   */
  datatype ParseOutcome = ParseOutcome(ret: int, storage: Option<SockAddr>, host: Option<seq<char>>)

  /**
   * The effect of `strcpy(host_string, address)` in the parser: the bytes
   * it writes, the whole address with its terminator, whatever the size of
   * the 256-byte buffer.
   */
  function HostCopyLength(address: seq<char>): (written: nat)
    requires Valid(address)
    ensures written == Strlen(address) + 1
    ensures written <= HOST_BUFFER_SIZE <==> Strlen(address) < HOST_BUFFER_SIZE
  {
    |address| + 1
  }

  /**
   * js_debugger_parse_sockaddr as written: splits at the first ':', takes
   * `atoi` of the rest as the port and rejects only 0, keeps the port's low
   * 16 bits as `htons` does, and resolves the text before the ':'. The
   * host copy is reported by HostCopyLength and not bounded here.
   */
  function ParseSockaddrAsWritten(address: seq<char>, res: Resolver): (r: ParseOutcome)
    requires Valid(address)
    ensures r.ret == 0 <==> r.storage.Some?
    ensures r.ret == 0 || r.ret == -1
    ensures IndexOf(address, ':').None? ==> r.ret == -1 && r.host.None?
    ensures IndexOf(address, ':').Some? ==>
      var i := IndexOf(address, ':').value;
      var port := Atoi(address[i + 1..]);
      (port == 0 ==> r.ret == -1 && r.host.None?) &&
      (port != 0 ==> r.host == Some(address[..i]) &&
                     r.storage == Resolve(address[..i], port % PORT_LIMIT, res))
  {
    match IndexOf(address, ':')
    case None => ParseOutcome(-1, None, None)
    case Some(i) => UncheckedResolve(address, i, Atoi(address[i + 1..]), res)
  }

  /** The parser as written once the ':' at `i` is found and the port text read as `port`. */
  function UncheckedResolve(address: seq<char>, i: nat, port: int, res: Resolver): (r: ParseOutcome)
    requires i < |address|
    ensures r.ret == 0 <==> r.storage.Some?
    ensures r.ret == 0 || r.ret == -1
    ensures port == 0 ==> r.ret == -1 && r.host.None?
    ensures port != 0 ==> r.host == Some(address[..i]) &&
                          r.storage == Resolve(address[..i], port % PORT_LIMIT, res)
  {
    if port == 0 then ParseOutcome(-1, None, None)
    else
      var host := address[..i];
      var a := Resolve(host, port % PORT_LIMIT, res);
      ParseOutcome(if a.Some? then 0 else -1, a, Some(host))
  }

  /**
   * The host copy overruns its buffer: the 302-character address made of a
   * 300-character name and ":1" gets past the port check, and `strcpy` then
   * writes its 302 characters and the terminator, 303 bytes, into the
   * 256-byte buffer.
   */
  lemma LongAddressOverrunsHostBuffer(res: Resolver)
    ensures var address := seq(300, _ => 'a') + ":1";
      Valid(address) &&
      ParseSockaddrAsWritten(address, res).host.Some? &&
      HostCopyLength(address) == 303 > HOST_BUFFER_SIZE
  {
    var name := seq(300, _ => 'a');
    var address := name + ":1";
    assert address[300] == ':';
    assert ':' !in address[..300] by {
      assert address[..300] == name;
    }
    assert IndexOf(address, ':') == Some(300);
    assert address[301..] == Decimal(1) + [];
    AtoiDecimal(1, []);
  }

  /** "65536" as `printf` writes it. */
  lemma Decimal65536()
    ensures Decimal(65536) == "65536"
  {
    assert Decimal(6) == "6";
    assert Decimal(65) == Decimal(6) + ['5'];
    assert Decimal(655) == Decimal(65) + ['5'];
    assert Decimal(6553) == Decimal(655) + ['3'];
  }

  /** The port is kept modulo 2^16: "h:65536" passes the check against 0 and yields port 0. */
  lemma PortAbove65535Wraps(res: Resolver)
    requires res.byName("h") == Some(HostEntry(AF_INET, [127, 0, 0, 1]))
    ensures ParseSockaddrAsWritten("h:65536", res).storage == Some(SockAddr(AF_INET, 0, [127, 0, 0, 1]))
  {
    var address: seq<char> := "h:65536";
    Decimal65536();
    assert IndexOf(address, ':') == Some(1);
    assert address[2..] == Decimal(65536) + [];
    AtoiDecimal(65536, []);
    assert address[..1] == "h";
  }

  /** A negative port is accepted too: "h:-1" yields port 65535. */
  lemma NegativePortWraps(res: Resolver)
    requires res.byName("h") == Some(HostEntry(AF_INET, [127, 0, 0, 1]))
    ensures ParseSockaddrAsWritten("h:-1", res).storage == Some(SockAddr(AF_INET, 65535, [127, 0, 0, 1]))
  {
    var address: seq<char> := "h:-1";
    assert IndexOf(address, ':') == Some(1);
    assert address[2..] == ['-'] + Decimal(1) + [];
    AtoiNegativeDecimal(1, []);
    assert address[..1] == "h";
  }

  /**
   * The corrected parser: as above, but it rejects a host that does not
   * fit the 256-byte buffer with its terminator, and a port outside
   * 1..65535 instead of truncating it.
   */
  function ParseSockaddr(address: seq<char>, res: Resolver): (r: ParseOutcome)
    requires Valid(address)
    ensures r.ret == 0 <==> r.storage.Some?
    ensures r.ret == 0 || r.ret == -1
    ensures r.host.Some? ==> |r.host.value| + 1 <= HOST_BUFFER_SIZE && ':' !in r.host.value
    ensures r.storage.Some? ==> 0 < r.storage.value.port < PORT_LIMIT
    ensures IndexOf(address, ':').None? ==> r.ret == -1
    ensures IndexOf(address, ':').Some? ==>
      var i := IndexOf(address, ':').value;
      var port := Atoi(address[i + 1..]);
      (r.host.Some? <==> 0 < port < PORT_LIMIT && i < HOST_BUFFER_SIZE) &&
      (r.host.Some? ==> address == r.host.value + [':'] + address[i + 1..] &&
                        r.storage == Resolve(r.host.value, port, res))
  {
    match IndexOf(address, ':')
    case None => ParseOutcome(-1, None, None)
    case Some(i) => CheckedResolve(address, i, Atoi(address[i + 1..]), res)
  }

  /** The corrected parser once the ':' at `i` is found and the port text read as `port`. */
  function CheckedResolve(address: seq<char>, i: nat, port: int, res: Resolver): (r: ParseOutcome)
    requires i < |address| && address[i] == ':' && ':' !in address[..i]
    ensures r.ret == 0 <==> r.storage.Some?
    ensures r.ret == 0 || r.ret == -1
    ensures r.host.Some? ==> |r.host.value| + 1 <= HOST_BUFFER_SIZE && ':' !in r.host.value
    ensures r.storage.Some? ==> 0 < r.storage.value.port < PORT_LIMIT
    ensures r.host.Some? <==> 0 < port < PORT_LIMIT && i < HOST_BUFFER_SIZE
    ensures r.host.Some? ==> address == r.host.value + [':'] + address[i + 1..] &&
                             r.storage == Resolve(r.host.value, port, res)
  {
    if port <= 0 || port >= PORT_LIMIT || i >= HOST_BUFFER_SIZE then ParseOutcome(-1, None, None)
    else
      var host := address[..i];
      assert address == host + [':'] + address[i + 1..];
      var a := Resolve(host, port, res);
      ParseOutcome(if a.Some? then 0 else -1, a, Some(host))
  }

  /**
   * The two parsers return the same outcome on every address whose host fits
   * and whose port is in range. The code as written copies the whole address
   * first, so its copy stays inside the host buffer only when the whole
   * address, not just the host, is shorter than the buffer.
   */
  lemma ParseSockaddrAgreesInRange(address: seq<char>, res: Resolver)
    requires Valid(address)
    requires IndexOf(address, ':').Some?
    requires IndexOf(address, ':').value < HOST_BUFFER_SIZE
    requires 0 < Atoi(address[IndexOf(address, ':').value + 1..]) < PORT_LIMIT
    ensures ParseSockaddr(address, res) == ParseSockaddrAsWritten(address, res)
    ensures HostCopyLength(address) <= HOST_BUFFER_SIZE <==> |address| < HOST_BUFFER_SIZE
  {
    var i := IndexOf(address, ':').value;
    var port := Atoi(address[i + 1..]);
    assert ParseSockaddr(address, res) == CheckedResolve(address, i, port, res);
    assert ParseSockaddrAsWritten(address, res) == UncheckedResolve(address, i, port, res);
    ResolversAgree(address, i, port, res);
  }

  lemma ResolversAgree(address: seq<char>, i: nat, port: int, res: Resolver)
    requires i < |address| && address[i] == ':' && ':' !in address[..i]
    requires i < HOST_BUFFER_SIZE && 0 < port < PORT_LIMIT
    ensures CheckedResolve(address, i, port, res) == UncheckedResolve(address, i, port, res)
  {
    PortBelowLimit(port);
  }

  lemma PortBelowLimit(port: int)
    requires 0 < port < PORT_LIMIT
    ensures port % PORT_LIMIT == port
  {
  }

  /** A parsed address always has a defined length, as the transport's connect expects. */
  lemma ParsedAddressHasLength(address: seq<char>, res: Resolver)
    requires Valid(address)
    ensures ParseSockaddr(address, res).ret == 0 ==>
      SockaddrLength(ParseSockaddr(address, res).storage.value.family) > 0
  {
  }
}
