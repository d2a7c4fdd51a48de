/**
 Endpoint strings and their order (src/daemon/transport/ip/IPInterfaceEndpoint.cpp,
 src/daemon/transport/SocketEndpoint.cpp).

 An address is its canonical text. Boost's parser is a parameter: it maps a text to the canonical
 text of the address it denotes, and a canonical text to itself.
 */
module Endpoints {

  import opened Prelude
  import opened BigEndian

  type Port = p: nat | p < 0x1_0000

  type Parser = string -> Option<string>

  datatype IpEndpoint = IpEndpoint(prefix: string, ip: string, port: Port)

  /** The address of an endpoint that has not been set. */
  const ANY_ADDRESS: string := "0.0.0.0"

  const NO_SUCH_INTERFACE: nat := 180

  // ----- strings: -1 is npos, and a negative count is a huge one, as in size_t arithmetic -----

  function First(s: string, c: char): (i: int)
    ensures -1 <= i < |s|
  {
    if s == [] then -1
    else if s[0] == c then 0
    else
      var i := First(s[1..], c);
      if i == -1 then -1 else i + 1
  }

  function Last(s: string, c: char): (i: int)
    ensures -1 <= i < |s|
  {
    if s == [] then -1 else if s[|s| - 1] == c then |s| - 1 else Last(s[..|s| - 1], c)
  }

  function Substr(s: string, from: nat, count: int): string
    requires from <= |s|
  {
    if count < 0 || from + count > |s| then s[from..] else s[from..from + count]
  }

  // ----- ports -----

  function Letters(ds: seq<nat>): string
    requires forall i :: 0 <= i < |ds| ==> ds[i] < 10
  {
    seq(|ds|, i requires 0 <= i < |ds| => ('0' as int + ds[i]) as char)
  }

  function DecimalDigits(n: nat): (ds: seq<nat>)
    ensures ds != [] && forall i :: 0 <= i < |ds| ==> ds[i] < 10
  {
    if n == 0 then [0] else Digits(10, n)
  }

  /** A number inserted into an ostream. */
  function Decimal(n: nat): string { Letters(DecimalDigits(n)) }

  predicate AllDigits(s: string) {
    forall i :: 0 <= i < |s| ==> '0' <= s[i] <= '9'
  }

  function DigitsOf(s: string): seq<nat>
    requires AllDigits(s)
  {
    seq(|s|, i requires 0 <= i < |s| => s[i] as int - '0' as int)
  }

  /** lexical_cast<uint16_t>: an optional sign, then digits up to 65535; a minus wraps. None: bad_lexical_cast. */
  function ParsePort(s: string): Option<Port> {
    if s != [] && (s[0] == '-' || s[0] == '+') then ParseDigits(s[0] == '-', s[1..]) else ParseDigits(false, s)
  }

  function ParseDigits(minus: bool, body: string): Option<Port> {
    if body == [] || !AllDigits(body) || Eval(10, DigitsOf(body)) >= 0x1_0000 then None
    else
      var v := Eval(10, DigitsOf(body));
      Some(if minus then (0x1_0000 - v) % 0x1_0000 else v)
  }

  lemma PortRoundTrip(p: Port)
    ensures ParsePort(Decimal(p)) == Some(p) && ':' !in Decimal(p)
  {
    LettersDigits(DecimalDigits(p));
    if p == 0 {
      assert [0][..0] == [];
    } else {
      EvalDigits(10, p);
    }
  }

  lemma LettersDigits(ds: seq<nat>)
    requires forall i :: 0 <= i < |ds| ==> ds[i] < 10
    ensures AllDigits(Letters(ds)) && DigitsOf(Letters(ds)) == ds
  {
  }

  /** A port is printed without leading zeros, 0 itself as one. */
  lemma ShortestDecimal(n: nat)
    ensures n == 0 ==> Decimal(n) == ['0']
    ensures n > 0 ==> '1' <= Decimal(n)[0] <= '9' && Pow(10, |Decimal(n)| - 1) <= n < Pow(10, |Decimal(n)|)
  {
    if n > 0 {
      DigitsLength(10, n);
      NoLeadingZero(10, n);
    }
  }

  lemma DigitsStandFor(minus: bool, ds: seq<nat>)
    requires ds != [] && forall i :: 0 <= i < |ds| ==> ds[i] < 10
    ensures ParseDigits(minus, Letters(ds)) ==
            if Eval(10, ds) >= 0x1_0000 then None
            else Some(if minus then (0x1_0000 - Eval(10, ds)) % 0x1_0000 else Eval(10, ds))
  {
    LettersDigits(ds);
  }

  /** Digits stand for their number if it fits in 16 bits. */
  lemma PlainPort(ds: seq<nat>)
    requires ds != [] && forall i :: 0 <= i < |ds| ==> ds[i] < 10
    ensures ParsePort(Letters(ds)) == if Eval(10, ds) < 0x1_0000 then Some(Eval(10, ds)) else None
  {
    LettersDigits(ds);
    DigitsStandFor(false, ds);
    assert '0' <= Letters(ds)[0] <= '9';
  }

  lemma SignStripped(sign: char, w: string)
    requires sign == '+' || sign == '-'
    ensures ParsePort([sign] + w) == ParseDigits(sign == '-', w)
  {
    var s := [sign] + w;
    assert s[0] == sign && s[1..] == w;
  }

  /** So they do after a plus; after a minus they are negated modulo 2^16. */
  lemma SignedPort(sign: char, ds: seq<nat>)
    requires ds != [] && (forall i :: 0 <= i < |ds| ==> ds[i] < 10) && (sign == '+' || sign == '-')
    ensures ParsePort([sign] + Letters(ds)) ==
            if Eval(10, ds) >= 0x1_0000 then None
            else Some(if sign == '-' then (0x1_0000 - Eval(10, ds)) % 0x1_0000 else Eval(10, ds))
  {
    SignStripped(sign, Letters(ds));
    DigitsStandFor(sign == '-', ds);
  }

  lemma DigitsLetters(w: string)
    requires AllDigits(w)
    ensures (forall i :: 0 <= i < |w| ==> DigitsOf(w)[i] < 10) && Letters(DigitsOf(w)) == w
  {
  }

  /** And no other text stands for a port. */
  lemma OnlySignedDigits(w: string) returns (sign: string, ds: seq<nat>)
    requires ParsePort(w).Some?
    ensures (sign == [] || sign == ['+'] || sign == ['-']) && ds != [] && (forall i :: 0 <= i < |ds| ==> ds[i] < 10)
    ensures w == sign + Letters(ds)
  {
    var body := w;
    sign := [];
    if w != [] && (w[0] == '-' || w[0] == '+') {
      sign, body := [w[0]], w[1..];
    }
    assert body != [] && AllDigits(body);
    DigitsLetters(body);
    ds := DigitsOf(body);
  }

  // ----- one endpoint -----

  function ToString(e: IpEndpoint): string {
    e.prefix + ":" + e.ip + ":" + Decimal(e.port)
  }

  function PortText(s: string): string {
    Substr(s, Last(s, ':') + 1, |s| - Last(s, ':'))
  }

  function IpText(s: string): string {
    Substr(s, First(s, ':') + 1, Last(s, ':') - First(s, ':') - 1)
  }

  function PrefixText(s: string): string {
    Substr(s, 0, First(s, ':'))
  }

  /** setIPString cuts a scope id off before it parses. */
  function WithoutScope(ip: string): string {
    Substr(ip, 0, First(ip, '%'))
  }

  /** fromString on a fresh endpoint, or the endpoint an exception leaves behind. */
  datatype Parsed = Done(e: IpEndpoint) | Thrown(e: IpEndpoint)

  function ReadEndpoint(e: IpEndpoint, s: string, parse: Parser): Parsed {
    match ParsePort(PortText(s))
    case None => Thrown(e)
    case Some(port) =>
      match parse(WithoutScope(IpText(s)))
      case None => Thrown(e.(port := port))
      case Some(ip) => Done(e.(port := port, ip := ip))
  }

  class IpInterfaceEndpoint {
    const prefix: string
    var ip: string
    var port: Port

    ghost function State(): IpEndpoint
      reads this
    {
      IpEndpoint(prefix, ip, port)
    }

    constructor (prefix: string)
      ensures State() == IpEndpoint(prefix, ANY_ADDRESS, 0)
    {
      this.prefix, ip, port := prefix, ANY_ADDRESS, 0;
    }

    method SetIPString(text: string, parse: Parser) returns (thrown: bool)
      modifies this`ip
      ensures thrown <==> parse(WithoutScope(text)).None?
      ensures if thrown then ip == old(ip) else Some(ip) == parse(WithoutScope(text))
    {
      var address := parse(Substr(text, 0, First(text, '%')));
      if address.None? {
        return true;
      }
      ip := address.value;
      thrown := false;
    }

    method Load(s: string, parse: Parser) returns (thrown: bool)
      modifies this
      ensures ReadEndpoint(old(State()), s, parse) == if thrown then Thrown(State()) else Done(State())
    {
      var parsed := ParsePort(PortText(s));
      if parsed.None? {
        return true;
      }
      port := parsed.value;
      thrown := SetIPString(IpText(s), parse);
    }
  }

  lemma Slices(a: string, b: string, c: string)
    ensures var s, n, m := a + ":" + b + ":" + c, |a|, |a| + 1 + |b|;
            s[..n] == a && s[n] == ':' && s[n + 1..m] == b && s[m] == ':' && s[m + 1..] == c
  {
  }

  /** Where the delimiters of such a text are, whatever colons the middle part contains. */
  lemma Delimiters(prefix: string, ip: string, port: string)
    requires ':' !in prefix && ':' !in port
    ensures var s := prefix + ":" + ip + ":" + port;
            First(s, ':') == |prefix| && Last(s, ':') == |prefix| + 1 + |ip|
  {
    var s := prefix + ":" + ip + ":" + port;
    Slices(prefix, ip, port);
    FirstIs(s, ':', |prefix|);
    LastIs(s, ':', |prefix| + 1 + |ip|);
  }

  lemma {:induction false} FirstIs(s: string, c: char, n: nat)
    requires n < |s| && s[n] == c && c !in s[..n]
    ensures First(s, c) == n
  {
    if n > 0 {
      assert s[..n] == [s[0]] + s[1..][..n - 1];
      FirstIs(s[1..], c, n - 1);
    }
  }

  lemma {:induction false} LastIs(s: string, c: char, n: nat)
    requires n < |s| && s[n] == c && c !in s[n + 1..]
    ensures Last(s, c) == n
  {
    var m := |s| - 1;
    if n < m {
      assert s[n + 1..] == s[..m][n + 1..] + [s[m]];
      LastIs(s[..m], c, n);
    }
  }

  lemma {:induction false} FirstAbsent(s: string, c: char)
    requires c !in s
    ensures First(s, c) == -1
  {
    if s != [] {
      assert s == [s[0]] + s[1..];
      FirstAbsent(s[1..], c);
    }
  }

  lemma {:induction false} LastAbsent(s: string, c: char)
    requires c !in s
    ensures Last(s, c) == -1
  {
    if s != [] {
      var m := |s| - 1;
      assert s == s[..m] + [s[m]];
      LastAbsent(s[..m], c);
    }
  }

  lemma TextParts(prefix: string, ip: string, port: string)
    requires ':' !in prefix && ':' !in port
    ensures var s := prefix + ":" + ip + ":" + port;
            PrefixText(s) == prefix && IpText(s) == ip && PortText(s) == port
  {
    Delimiters(prefix, ip, port);
    Slices(prefix, ip, port);
  }

  /** The three parts of an endpoint string. */
  lemma Parts(e: IpEndpoint)
    requires ':' !in e.prefix
    ensures var s := ToString(e);
            PrefixText(s) == e.prefix && IpText(s) == e.ip && PortText(s) == Decimal(e.port)
  {
    PortRoundTrip(e.port);
    TextParts(e.prefix, e.ip, Decimal(e.port));
  }

  /** toString is injective on endpoints whose prefixes have no colon. */
  lemma ToStringInjective(a: IpEndpoint, b: IpEndpoint)
    requires ':' !in a.prefix && ':' !in b.prefix && ToString(a) == ToString(b)
    ensures a == b
  {
    Parts(a);
    Parts(b);
    PortRoundTrip(a.port);
    PortRoundTrip(b.port);
  }

  // ----- endpoints of a socket -----

  /** interface_endpoint, and P2PError::no_such_interface if the prefix names no registered interface. */
  datatype Loaded = Loaded(endpoint: Option<IpEndpoint>, error: Option<nat>, thrown: bool)

  function LoadEndpoint(old': Option<IpEndpoint>, interfaces: set<string>, s: string, parse: Parser): Loaded {
    if PrefixText(s) !in interfaces then Loaded(old', Some(NO_SUCH_INTERFACE), true)
    else Finished(ReadEndpoint(IpEndpoint(PrefixText(s), ANY_ADDRESS, 0), s, parse))
  }

  function Finished(p: Parsed): Loaded {
    Loaded(Some(p.e), None, p.Thrown?)
  }

  class SocketEndpoint {
    const interfaces: set<string>  // the prefixes of the interfaces registered at the parent socket
    var interfaceEndpoint: IpInterfaceEndpoint?

    constructor (interfaces: set<string>)
      ensures this.interfaces == interfaces && interfaceEndpoint == null
    {
      this.interfaces, interfaceEndpoint := interfaces, null;
    }

    ghost function State(): Option<IpEndpoint>
      reads this, interfaceEndpoint
    {
      if interfaceEndpoint == null then None else Some(interfaceEndpoint.State())
    }

    method FromString(s: string, parse: Parser) returns (error: Option<nat>, thrown: bool)
      modifies this
      ensures Loaded(State(), error, thrown) == LoadEndpoint(old(State()), interfaces, s, parse)
    {
      var prefix := PrefixText(s);
      if prefix !in interfaces {
        return Some(NO_SUCH_INTERFACE), true;
      }
      interfaceEndpoint := new IpInterfaceEndpoint(prefix);
      error := None;
      ghost var blank := interfaceEndpoint.State();
      assert blank == IpEndpoint(prefix, ANY_ADDRESS, 0);
      thrown := interfaceEndpoint.Load(s, parse);
      assert ReadEndpoint(blank, s, parse) == if thrown then Thrown(interfaceEndpoint.State()) else Done(interfaceEndpoint.State());
    }
  }

  /** A scope id is a '%' and what follows, or nothing. */
  predicate IsScope(z: string) {
    z == [] || z[0] == '%'
  }

  /** Of an address text the parser is handed the part before the first '%'. */
  lemma ScopeDropped(a: string, z: string)
    requires '%' !in a && IsScope(z)
    ensures WithoutScope(a + z) == a
  {
    if z == [] {
      assert a + z == a;
      FirstAbsent(a, '%');
    } else {
      assert (a + z)[..|a|] == a && (a + z)[|a|] == '%';
      FirstIs(a + z, '%', |a|);
    }
  }

  /** Every address text splits in this way. */
  lemma {:induction false} SplitScope(ip: string) returns (a: string, z: string)
    ensures ip == a + z && '%' !in a && IsScope(z)
  {
    if ip == [] || ip[0] == '%' {
      a, z := [], ip;
    } else {
      a, z := SplitScope(ip[1..]);
      a := [ip[0]] + a;
    }
  }

  /**
   Every text of the form prefix:address%scope:port, the scope possibly missing, address and scope with
   whatever colons: it loads into this endpoint if and only if the prefix is a registered interface, the
   port text stands for this port, and the address without its scope is parsed to this address.
   */
  lemma LoadExactly(prefix: string, a: string, z: string, port: string, e: IpEndpoint, old': Option<IpEndpoint>,
                    interfaces: set<string>, parse: Parser)
    requires ':' !in prefix && ':' !in port && '%' !in a && IsScope(z)
    ensures LoadEndpoint(old', interfaces, prefix + ":" + (a + z) + ":" + port, parse) == Loaded(Some(e), None, false) <==>
            prefix in interfaces && e.prefix == prefix && ParsePort(port) == Some(e.port) && parse(a) == Some(e.ip)
  {
    TextParts(prefix, a + z, port);
    ScopeDropped(a, z);
  }

  /** With a single colon, what follows it is taken for the address and for the port; with none, the whole text is taken for all three. */
  lemma LoadWithoutPort(prefix: string, w: string, e: IpEndpoint, old': Option<IpEndpoint>, interfaces: set<string>, parse: Parser)
    requires ':' !in prefix && ':' !in w && '%' !in w
    ensures LoadEndpoint(old', interfaces, prefix + ":" + w, parse) == Loaded(Some(e), None, false) <==>
            prefix in interfaces && e.prefix == prefix && ParsePort(w) == Some(e.port) && parse(w) == Some(e.ip)
    ensures LoadEndpoint(old', interfaces, w, parse) == Loaded(Some(e), None, false) <==>
            w in interfaces && e.prefix == w && ParsePort(w) == Some(e.port) && parse(w) == Some(e.ip)
  {
    var s := prefix + ":" + w;
    assert s[..|prefix|] == prefix && s[|prefix|] == ':' && s[|prefix| + 1..] == w;
    FirstIs(s, ':', |prefix|);
    LastIs(s, ':', |prefix|);
    FirstAbsent(w, ':');
    LastAbsent(w, ':');
    FirstAbsent(w, '%');
    assert PrefixText(s) == prefix && IpText(s) == w && PortText(s) == w && WithoutScope(w) == w;
    assert PrefixText(w) == w && IpText(w) == w && PortText(w) == w;
  }

  /** A prefix that names no interface leaves the endpoint alone and reports no_such_interface, whatever follows. */
  lemma UnknownInterface(prefix: string, rest: string, old': Option<IpEndpoint>, interfaces: set<string>, parse: Parser)
    requires ':' !in prefix && prefix !in interfaces && (rest == [] || rest[0] == ':')
    ensures LoadEndpoint(old', interfaces, prefix + rest, parse) == Loaded(old', Some(NO_SUCH_INTERFACE), true)
  {
    var s := prefix + rest;
    if rest == [] {
      assert s == prefix;
      FirstAbsent(s, ':');
    } else {
      assert s[..|prefix|] == prefix && s[|prefix|] == ':';
      FirstIs(s, ':', |prefix|);
    }
    assert PrefixText(s) == prefix;
  }

  /**
   For a registered, colon-free prefix, every address (IPv6 with its colons included) and every
   port, reading back what toString printed restores the endpoint if and only if the part of the address
   before its scope is parsed to the whole address; without a scope it always is.
   */
  lemma EndpointRoundTrip(e: IpEndpoint, a: string, z: string, old': Option<IpEndpoint>, interfaces: set<string>, parse: Parser)
    requires ':' !in e.prefix && e.prefix in interfaces && parse(e.ip) == Some(e.ip)
    requires e.ip == a + z && '%' !in a && IsScope(z)
    ensures LoadEndpoint(old', interfaces, ToString(e), parse) == Loaded(Some(e), None, false) <==> parse(a) == Some(e.ip)
    ensures z == [] ==> parse(a) == Some(e.ip)
  {
    PortRoundTrip(e.port);
    LoadExactly(e.prefix, a, z, Decimal(e.port), e, old', interfaces, parse);
    if z == [] {
      assert a + z == a;
    }
  }

  // ----- operator== and operator< -----

  function Codes(s: string): seq<nat> {
    seq(|s|, i requires 0 <= i < |s| => s[i] as nat)
  }

  lemma CodesInjective(a: string, b: string)
    ensures Codes(a) == Codes(b) <==> a == b
  {
    if Codes(a) == Codes(b) {
      assert |a| == |Codes(a)| == |b|;
      assert forall i :: 0 <= i < |a| ==> a[i] as nat == Codes(a)[i] == Codes(b)[i] == b[i] as nat;
    }
  }

  predicate Equal(a: Option<IpEndpoint>, b: Option<IpEndpoint>) {
    (a.Some? && b.Some? && ToString(a.value) == ToString(b.value)) || (a.None? && b.None?)
  }

  predicate Less(a: Option<IpEndpoint>, b: Option<IpEndpoint>) {
    a.Some? && b.Some? && SeqLess(Codes(ToString(a.value)), Codes(ToString(b.value)))
  }

  /** Exactly one of the three holds. */
  predicate Exactly1(p: bool, q: bool, r: bool) {
    (p && !q && !r) || (!p && q && !r) || (!p && !q && r)
  }

  /**
   operator< is transitive; exactly one of a < b, a == b, b < a holds if and only if both endpoints
   are set or both are not; and == on set endpoints with colon-free prefixes is equality.
   */
  lemma EndpointOrder(a: Option<IpEndpoint>, b: Option<IpEndpoint>, c: Option<IpEndpoint>)
    ensures Less(a, b) && Less(b, c) ==> Less(a, c)
    ensures Exactly1(Less(a, b), Equal(a, b), Less(b, a)) <==> (a.Some? <==> b.Some?)
    ensures a.Some? && b.Some? && ':' !in a.value.prefix && ':' !in b.value.prefix ==> (Equal(a, b) <==> a == b)
  {
    if Less(a, b) && Less(b, c) {
      SeqTransitive(Codes(ToString(a.value)), Codes(ToString(b.value)), Codes(ToString(c.value)));
    }
    if a.Some? && b.Some? {
      SeqTrichotomy(Codes(ToString(a.value)), Codes(ToString(b.value)));
      SeqTrichotomy(Codes(ToString(b.value)), Codes(ToString(a.value)));
      CodesInjective(ToString(a.value), ToString(b.value));
      if ':' !in a.value.prefix && ':' !in b.value.prefix && Equal(a, b) {
        ToStringInjective(a.value, b.value);
      }
    }
  }

  /** An unset endpoint is unordered with every set one, so it must not be a key beside two different ones. */
  lemma UnsetBreaksOrder(a: IpEndpoint, b: IpEndpoint)
    requires ':' !in a.prefix && ':' !in b.prefix && a != b
    ensures !Less(None, Some(a)) && !Less(Some(a), None) && !Less(None, Some(b)) && !Less(Some(b), None)
    ensures Less(Some(a), Some(b)) || Less(Some(b), Some(a))
  {
    EndpointOrder(Some(a), Some(b), None);
  }

  /** Endpoints are ordered by the first character in which their texts differ, a shorter text first. */
  lemma FirstDifferenceDecides(a: IpEndpoint, b: IpEndpoint, p: string, c: string, d: string)
    requires ToString(a) == p + c && ToString(b) == p + d && d != [] && (c == [] || c[0] < d[0])
    ensures Less(Some(a), Some(b)) && !Less(Some(b), Some(a))
  {
    CodesConcat(p, c);
    CodesConcat(p, d);
    CommonPrefix(Codes(p), Codes(c), Codes(d));
    SeqTrichotomy(Codes(p + c), Codes(p + d));
  }

  lemma CodesConcat(a: string, b: string)
    ensures Codes(a + b) == Codes(a) + Codes(b)
  {
  }
}
