/** The string operations the forward parser uses, with the behaviour Go documents for them. */
module Text {
  import opened Bytes

  function LastIndex(s: string, c: char): (i: int)
    ensures -1 <= i < |s|
    ensures i >= 0 ==> s[i] == c
    ensures forall j :: i < j < |s| ==> s[j] != c
  {
    if s == "" then -1
    else if s[|s| - 1] == c then |s| - 1
    else LastIndex(s[..|s| - 1], c)
  }

  lemma {:induction false} LastIndexOfTail(a: string, c: char, b: string)
    requires c !in b
    ensures LastIndex(a + [c] + b, c) == |a|
  {
    if b != "" {
      var init := b[..|b| - 1];
      assert (a + [c] + b)[..|a| + 1 + |init|] == a + [c] + init;
      LastIndexOfTail(a, c, init);
    }
  }

  function TrimSuffix(s: string, c: char): string {
    if s != "" && s[|s| - 1] == c then s[..|s| - 1] else s
  }

  predicate IsDigit(c: char) { '0' <= c <= '9' }

  function Digits(s: string): Option<nat>
  {
    if s == "" then None
    else if !IsDigit(s[|s| - 1]) then None
    else
      var d := (s[|s| - 1] - '0') as nat;
      if |s| == 1 then Some(d)
      else match Digits(s[..|s| - 1])
        case None => None
        case Some(n) => Some(10 * n + d)
  }

  /** Decimal digits with an optional sign. A number too large for Go's int is out of any port range anyway. */
  function Atoi(s: string): Option<int> {
    if s != "" && (s[0] == '+' || s[0] == '-') then
      match Digits(s[1..])
      case None => None
      case Some(n) => var v: int := n; Some(if s[0] == '-' then -v else v)
    else
      match Digits(s)
      case None => None
      case Some(n) => Some(n)
  }

  function PowerOfTen(k: nat): nat {
    if k == 0 then 1 else 10 * PowerOfTen(k - 1)
  }

  predicate AllDigits(s: string) {
    s != "" && forall i :: 0 <= i < |s| ==> '0' <= s[i] <= '9'
  }

  /** The decimal value, place by place from the front. */
  function DecimalValue(s: string): nat
    requires forall i :: 0 <= i < |s| ==> '0' <= s[i] <= '9'
  {
    if s == "" then 0 else (s[0] as int - '0' as int) * PowerOfTen(|s| - 1) + DecimalValue(s[1..])
  }

  lemma {:induction false} LastPlace(s: string)
    requires AllDigits(s)
    ensures DecimalValue(s) == 10 * DecimalValue(s[..|s| - 1]) + (s[|s| - 1] as int - '0' as int)
  {
    var init, last := s[..|s| - 1], s[|s| - 1] as int - '0' as int;
    if |s| > 1 {
      var first, later := s[0] as int - '0' as int, DecimalValue(init[1..]);
      assert s[1..][..|s| - 2] == init[1..];
      LastPlace(s[1..]);
      hide AllDigits;
      assert DecimalValue(s) == first * PowerOfTen(|s| - 1) + (10 * later + last);
      assert DecimalValue(init) == first * PowerOfTen(|s| - 2) + later;
      hide DecimalValue;
      Shifted(first, PowerOfTen(|s| - 2), later);
    }
  }

  lemma Shifted(first: int, power: nat, later: nat)
    ensures first * (10 * power) + 10 * later == 10 * (first * power + later)
  {
    assert first * (10 * power) == 10 * (first * power);
  }

  /** Exactly the non-empty digit strings are read, as their decimal value. */
  lemma {:induction false} DigitsExactly(s: string)
    ensures Digits(s) == if AllDigits(s) then Some(DecimalValue(s)) else None
  {
    if s != "" {
      var init := s[..|s| - 1];
      assert s == init + [s[|s| - 1]];
      DigitsExactly(init);
      if AllDigits(s) { LastPlace(s); }
    }
  }

  lemma {:induction false} DigitsOnly(s: string)
    requires Digits(s).Some?
    ensures forall i :: 0 <= i < |s| ==> IsDigit(s[i])
  {
    if |s| > 1 { DigitsOnly(s[..|s| - 1]); }
  }

  /** A number is written without colons or brackets. */
  lemma AtoiPlain(s: string)
    requires Atoi(s).Some?
    ensures s != "" && ':' !in s && '[' !in s && ']' !in s
  {
    if s != "" && (s[0] == '+' || s[0] == '-') {
      DigitsOnly(s[1..]);
      assert forall i :: 1 <= i < |s| ==> s[i] == s[1..][i - 1];
    } else {
      DigitsOnly(s);
    }
  }

  /** A number as it is usually written: only digits, and no zero in front. */
  predicate Canonical(p: string) {
    p != "" && (forall i :: 0 <= i < |p| ==> IsDigit(p[i])) && (|p| == 1 || p[0] != '0')
  }

  lemma {:induction false} CanonicalValue(p: string)
    requires Canonical(p)
    ensures Digits(p).Some? && Atoi(p) == Some(Digits(p).value)
    ensures if |p| == 1 then Digits(p).value < 10 else Digits(p).value >= 10
    ensures p[0] != '0' ==> Digits(p).value >= 1
  {
    if |p| > 1 { CanonicalValue(p[..|p| - 1]); }
  }

  /** Each number has one canonical text. */
  lemma {:induction false} CanonicalUnique(p: string, q: string)
    requires Canonical(p) && Canonical(q)
    ensures Digits(p) == Digits(q) <==> p == q
    decreases |p|
  {
    CanonicalValue(p);
    CanonicalValue(q);
    if Digits(p) == Digits(q) && |p| > 1 {
      var p', q' := p[..|p| - 1], q[..|q| - 1];
      CanonicalValue(p');
      CanonicalValue(q');
      assert Digits(p').value == Digits(p).value / 10 && Digits(q').value == Digits(q).value / 10;
      CanonicalUnique(p', q');
      assert p == p' + [p[|p| - 1]] && q == q' + [q[|q| - 1]];
    }
  }

  /** A zero in front changes the text and not the number. */
  lemma {:induction false} LeadingZero(p: string)
    requires Digits(p).Some?
    ensures Digits("0" + p) == Digits(p) && Atoi("0" + p) == Atoi(p)
  {
    assert ("0" + p)[..|p|] == "0" + p[..|p| - 1];
    if |p| > 1 { LeadingZero(p[..|p| - 1]); }
    DigitsOnly(p);
  }

  function JoinHostPort(host: string, port: string): string {
    if ':' in host then "[" + host + "]:" + port else host + ":" + port
  }
}

/** SSH-style forward specifications `[bind:]port:host:hostport` (internal/forward/forward.go). */
module Forward {
  import opened Bytes
  import opened Text

  datatype Error =
    | NoColon | PortEmpty | PortNotNumber | PortOutOfRange
    | HostEmpty | UnmatchedBracket | UnexpectedBracket | MissingListen | MalformedBracket

  datatype Result<T> = Ok(value: T) | Err(error: Error)

  datatype Spec = Spec(listen: string, target: string)

  /** The four fields, before they are joined into two addresses. */
  datatype Fields = Fields(bind: string, port: string, host: string, hostPort: string)

  const DEFAULT_BIND := "localhost"

  function PortError(p: string, allowZero: bool): Option<Error> {
    if p == "" then Some(PortEmpty)
    else match Atoi(p)
      case None => Some(PortNotNumber)
      case Some(n) => if n < (if allowZero then 0 else 1) || n > 65535 then Some(PortOutOfRange) else None
  }

  predicate ValidPort(p: string, allowZero: bool) { PortError(p, allowZero).None? }

  /** The text of a port without its sign. */
  function Unsigned(p: string): string {
    if p != "" && (p[0] == '+' || p[0] == '-') then p[1..] else p
  }

  /** A port is accepted if and only if it is an optional sign and digits, and its value lies between 1,
      or 0 where that is allowed, and 65535. */
  lemma ValidPortExactly(p: string, allowZero: bool)
    ensures ValidPort(p, allowZero) <==>
            && AllDigits(Unsigned(p))
            && var value := DecimalValue(Unsigned(p)) * (if p[0] == '-' then -1 else 1);
               (if allowZero then 0 else 1) <= value <= 65535
  {
    DigitsExactly(Unsigned(p));
  }

  function SplitPort(s: string, allowZero: bool): Result<(string, string)> {
    var idx := LastIndex(s, ':');
    if idx < 0 then Err(NoColon)
    else
      match PortError(s[idx + 1..], allowZero)
      case Some(e) => Err(e)
      case None => Ok((s[..idx], s[idx + 1..]))
  }

  function SplitHost(s: string): Result<(string, string)> {
    if s != "" && s[|s| - 1] == ']' then
      var open := LastIndex(s, '[');
      if open < 0 then Err(UnmatchedBracket)
      else
        var host := s[open + 1..|s| - 1];
        if host == "" then Err(HostEmpty) else Ok((s[..open], host))
    else
      var idx := LastIndex(s, ':');
      var host := s[idx + 1..];
      if host == "" then Err(HostEmpty)
      else if ']' in host then Err(UnexpectedBracket)
      else Ok((s[..idx + 1], host))
  }

  /** The prefix before the target, the target host and the target port. */
  function SplitTarget(s: string): Result<(string, string, string)> {
    match SplitPort(s, false)
    case Err(e) => Err(e)
    case Ok((prefix, port)) =>
      match SplitHost(prefix)
      case Err(e) => Err(e)
      case Ok((rest, host)) =>
        if rest == "" then Err(MissingListen) else Ok((TrimSuffix(rest, ':'), host, port))
  }

  function NormalizeHost(s: string): Result<string> {
    if s == "" then Ok("")
    else if s[0] == '[' && s[|s| - 1] == ']' then
      if s[1..|s| - 1] == "" then Err(HostEmpty) else Ok(s[1..|s| - 1])
    else if '[' in s || ']' in s then Err(MalformedBracket)
    else Ok(s)
  }

  /** The bind address and the local port. */
  function SplitListen(prefix: string): Result<(string, string)> {
    if ':' !in prefix then
      match PortError(prefix, true)
      case Some(e) => Err(e)
      case None => Ok((DEFAULT_BIND, prefix))
    else
      match SplitPort(prefix, true)
      case Err(e) => Err(e)
      case Ok((rest, port)) =>
        match NormalizeHost(rest)
        case Err(e) => Err(e)
        case Ok(bind) => Ok((if bind == "" then DEFAULT_BIND else bind, port))
  }

  function ParseFields(s: string): Result<Fields> {
    match SplitTarget(s)
    case Err(e) => Err(e)
    case Ok((rest, host, hostPort)) =>
      match SplitListen(rest)
      case Err(e) => Err(e)
      case Ok((bind, port)) => Ok(Fields(bind, port, host, hostPort))
  }

  function Listen(f: Fields): string { JoinHostPort(f.bind, f.port) }

  function Target(f: Fields): string { JoinHostPort(f.host, f.hostPort) }

  function Parse(s: string): Result<Spec> {
    match ParseFields(s)
    case Err(e) => Err(e)
    case Ok(f) => Ok(Spec(Listen(f), Target(f)))
  }

  // ---- peeling what was joined ----

  predicate BracketFree(s: string) { '[' !in s && ']' !in s }

  /** Hosts that survive being joined and peeled off again. */
  predicate GoodHost(host: string) {
    host != "" && if ':' in host then '[' !in host else ']' !in host
  }

  predicate GoodBind(bind: string) {
    bind != "" && (':' in bind || BracketFree(bind))
  }

  lemma PeelPort(a: string, port: string, allowZero: bool)
    requires ValidPort(port, allowZero)
    ensures SplitPort(a + ":" + port, allowZero) == Ok((a, port))
  {
    AtoiPlain(port);
    LastIndexOfTail(a, ':', port);
    var s := a + ":" + port;
    assert s[..|a|] == a && s[|a| + 1..] == port;
  }

  lemma PeelBracketed(a: string, host: string)
    requires host != "" && '[' !in host
    ensures SplitHost(a + "[" + host + "]") == Ok((a, host))
  {
    var s := a + "[" + host + "]";
    LastIndexOfTail(a, '[', host + "]");
    assert s == a + "[" + (host + "]");
    assert s[|a| + 1..|s| - 1] == host && s[..|a|] == a;
  }

  lemma PeelBare(a: string, host: string)
    requires host != "" && ':' !in host && ']' !in host
    ensures SplitHost(a + ":" + host) == Ok((a + ":", host))
  {
    var s := a + ":" + host;
    LastIndexOfTail(a, ':', host);
    assert s[|s| - 1] == host[|host| - 1];
    assert s[|a| + 1..] == host && s[..|a| + 1] == a + ":";
  }

  lemma PeelTarget(listen: string, host: string, port: string)
    requires GoodHost(host) && ValidPort(port, false)
    ensures SplitTarget(listen + ":" + JoinHostPort(host, port)) == Ok((listen, host, port))
  {
    var rest := listen + ":";
    assert TrimSuffix(rest, ':') == listen;
    if ':' in host {
      var prefix := rest + "[" + host + "]";
      assert rest + JoinHostPort(host, port) == prefix + ":" + port;
      PeelPort(prefix, port, false);
      PeelBracketed(rest, host);
    } else {
      var prefix := listen + ":" + host;
      assert rest + JoinHostPort(host, port) == prefix + ":" + port;
      PeelPort(prefix, port, false);
      PeelBare(listen, host);
    }
  }

  lemma PeelListen(bind: string, port: string)
    requires GoodBind(bind) && ValidPort(port, true)
    ensures SplitListen(JoinHostPort(bind, port)) == Ok((bind, port))
  {
    var s := JoinHostPort(bind, port);
    if ':' in bind {
      var b := "[" + bind + "]";
      assert s == b + ":" + port && s[|b|] == ':';
      PeelPort(b, port, true);
      assert b[1..|b| - 1] == bind;
    } else {
      assert s[|bind|] == ':';
      PeelPort(bind, port, true);
    }
  }

  // ---- the round trips ----

  /** Any bracket-free hosts and valid ports, printed with brackets exactly around hosts that have a
      colon, parse back to the same fields. */
  lemma PrintedFieldsParse(f: Fields)
    requires f.bind != "" && BracketFree(f.bind) && f.host != "" && BracketFree(f.host)
    requires ValidPort(f.port, true) && ValidPort(f.hostPort, false)
    ensures ParseFields(Listen(f) + ":" + Target(f)) == Ok(f)
  {
    PeelTarget(Listen(f), f.host, f.hostPort);
    PeelListen(f.bind, f.port);
  }

  /** Without a bind address the forward listens on the default one. */
  lemma OmittedBindParses(port: string, host: string, hostPort: string)
    requires host != "" && BracketFree(host) && ValidPort(port, true) && ValidPort(hostPort, false)
    ensures ParseFields(port + ":" + JoinHostPort(host, hostPort)) == Ok(Fields(DEFAULT_BIND, port, host, hostPort))
  {
    PeelTarget(port, host, hostPort);
    AtoiPlain(port);
  }

  /** Without a bind address, or with an empty one, a forward listens on localhost only. */
  lemma OmittedBindIsLocal(port: string, host: string, hostPort: string)
    requires GoodHost(host) && ValidPort(port, true) && ValidPort(hostPort, false)
    ensures var target := JoinHostPort(host, hostPort);
            && Parse(port + ":" + target) == Ok(Spec("localhost:" + port, target))
            && Parse(":" + port + ":" + target) == Ok(Spec("localhost:" + port, target))
  {
    hide SplitTarget, SplitListen, JoinHostPort, ValidPort, PortError, GoodHost;
    PeelTarget(port, host, hostPort);
    PeelTarget(":" + port, host, hostPort);
    LocalListen(port);
  }

  lemma LocalListen(port: string)
    requires ValidPort(port, true)
    ensures SplitListen(port) == Ok(("localhost", port)) == SplitListen(":" + port)
    ensures JoinHostPort("localhost", port) == "localhost:" + port
  {
    AtoiPlain(port);
    assert "" + ":" + port == ":" + port;
    PeelPort("", port, true);
    assert (":" + port)[0] == ':';
    assert ':' !in "localhost";
    assert "localhost" + ":" + port == "localhost:" + port;
    hide SplitPort, PortError, Atoi;
  }

  /** With a bind address it listens there, with brackets exactly around addresses with a colon. */
  lemma PrintedSpecParses(f: Fields)
    requires f.bind != "" && BracketFree(f.bind) && f.host != "" && BracketFree(f.host)
    requires ValidPort(f.port, true) && ValidPort(f.hostPort, false)
    ensures var listen := if ':' in f.bind then "[" + f.bind + "]:" + f.port else f.bind + ":" + f.port;
            var target := if ':' in f.host then "[" + f.host + "]:" + f.hostPort else f.host + ":" + f.hostPort;
            Parse(listen + ":" + target) == Ok(Spec(listen, target))
  {
    PrintedFieldsParse(f);
    hide ParseFields, ValidPort;
  }

  /** What every accepted input guarantees about its fields. */
  lemma AcceptedFields(s: string)
    requires ParseFields(s).Ok?
    ensures var f := ParseFields(s).value;
            && f.bind != "" && f.host != "" && ValidPort(f.port, true) && ValidPort(f.hostPort, false)
            && (':' in f.host || ']' in f.host ==> '[' !in f.host)
  {
    var (prefix, _) := SplitPort(s, false).value;
    if prefix != "" && prefix[|prefix| - 1] == ']' {
      var open := LastIndex(prefix, '[');
      assert '[' !in prefix[open + 1..|prefix| - 1];
    } else {
      assert ':' !in prefix[LastIndex(prefix, ':') + 1..];
    }
  }

  lemma SplitOfBadHost(listen: string, host: string)
    requires host != "" && ':' !in host && ']' in host && '[' !in host
    ensures var r := SplitHost(listen + ":" + host);
            r.Ok? ==> ':' in r.value.1
  {
    var prefix := listen + ":" + host;
    LastIndexOfTail(listen, ':', host);
    if prefix[|prefix| - 1] == ']' {
      var open := LastIndex(prefix, '[');
      if 0 <= open {
        assert open < |listen| by {
          assert prefix[|listen|] == ':';
          assert forall i :: |listen| < i < |prefix| ==> prefix[i] == host[i - |listen| - 1];
        }
        assert prefix[open + 1..|prefix| - 1][|listen| - open - 1] == ':';
      }
    } else {
      assert prefix[|listen| + 1..] == host;
    }
  }

  lemma BadHostChangesTarget(listen: string, host: string, port: string)
    requires host != "" && ':' !in host && ']' in host && '[' !in host && ValidPort(port, false)
    ensures var r := Parse(listen + ":" + JoinHostPort(host, port));
            r.Ok? ==> r.value.target != JoinHostPort(host, port)
  {
    var prefix := listen + ":" + host;
    assert listen + ":" + JoinHostPort(host, port) == prefix + ":" + port;
    PeelPort(prefix, port, false);
    SplitOfBadHost(listen, host);
    hide SplitPort, SplitHost, SplitListen, PortError;
    if SplitHost(prefix).Ok? {
      var host' := SplitHost(prefix).value.1;
      assert JoinHostPort(host', port)[0] == '[' && JoinHostPort(host, port)[0] == host[0];
    }
  }

  lemma BadBindChangesListen(bind: string, port: string)
    requires bind != "" && ':' !in bind && !BracketFree(bind) && ValidPort(port, true)
    ensures var r := SplitListen(JoinHostPort(bind, port));
            r.Ok? ==> JoinHostPort(r.value.0, r.value.1) != JoinHostPort(bind, port)
  {
    var s := JoinHostPort(bind, port);
    assert s[|bind|] == ':';
    PeelPort(bind, port, true);
    if bind[0] == '[' && bind[|bind| - 1] == ']' {
      var inner := bind[1..|bind| - 1];
      assert ':' !in inner;
      assert |JoinHostPort(inner, port)| == |s| - 2;
    }
  }

  /** Printing an accepted forward and parsing it again gives the same forward exactly when its
      hosts survive the join: the bind address has a colon or no bracket, and the target host has a
      colon or no closing bracket. */
  lemma ReparsesExactly(s: string)
    requires ParseFields(s).Ok?
    ensures var f := ParseFields(s).value;
            Parse(Listen(f) + ":" + Target(f)) == Parse(s) <==>
            (':' in f.bind || BracketFree(f.bind)) && (':' in f.host || ']' !in f.host)
  {
    var f := ParseFields(s).value;
    AcceptedFields(s);
    if GoodHost(f.host) {
      PeelTarget(Listen(f), f.host, f.hostPort);
      if GoodBind(f.bind) {
        PeelListen(f.bind, f.port);
      } else {
        BadBindChangesListen(f.bind, f.port);
      }
    } else {
      BadHostChangesTarget(Listen(f), f.host, f.hostPort);
    }
  }

  /** Every target host without an opening bracket is accepted inside brackets, so those with a
      closing bracket and no colon are accepted and do not reparse. */
  lemma BracketedHostAccepted(port: string, host: string, hostPort: string)
    requires host != "" && '[' !in host && ValidPort(port, true) && ValidPort(hostPort, false)
    ensures var s := port + ":" + "[" + host + "]" + ":" + hostPort;
            && ParseFields(s) == Ok(Fields(DEFAULT_BIND, port, host, hostPort))
            && (':' !in host && ']' in host ==> Parse(Listen(ParseFields(s).value) + ":" + Target(ParseFields(s).value)) != Parse(s))
  {
    var rest := port + ":";
    var s := port + ":" + "[" + host + "]" + ":" + hostPort;
    assert TrimSuffix(rest, ':') == port;
    PeelPort(rest + "[" + host + "]", hostPort, false);
    PeelBracketed(rest, host);
    AtoiPlain(port);
    assert SplitListen(port) == Ok((DEFAULT_BIND, port));
    hide SplitPort, SplitHost, SplitListen, PortError, GoodHost, GoodBind, DEFAULT_BIND;
    ReparsesExactly(s);
  }

  /** Every bind address at all is accepted inside brackets, so those with a bracket and no colon are
      accepted and do not reparse. */
  lemma BracketedBindAccepted(bind: string, port: string, host: string, hostPort: string)
    requires bind != "" && GoodHost(host) && ValidPort(port, true) && ValidPort(hostPort, false)
    ensures var s := "[" + bind + "]" + ":" + port + ":" + JoinHostPort(host, hostPort);
            && ParseFields(s) == Ok(Fields(bind, port, host, hostPort))
            && (':' !in bind && !BracketFree(bind) ==> Parse(Listen(ParseFields(s).value) + ":" + Target(ParseFields(s).value)) != Parse(s))
  {
    var b := "[" + bind + "]";
    var s := b + ":" + port + ":" + JoinHostPort(host, hostPort);
    PeelTarget(b + ":" + port, host, hostPort);
    PeelPort(b, port, true);
    assert (b + ":" + port)[|b|] == ':';
    assert b[1..|b| - 1] == bind;
    assert SplitListen(b + ":" + port) == Ok((bind, port));
    hide SplitTarget, SplitListen, PortError, GoodHost, GoodBind;
    ReparsesExactly(s);
  }

  /** The colon before a bracketed target is optional: both spellings give the same fields. */
  lemma ColonBeforeBracketOptional(port: string, host: string, hostPort: string)
    requires host != "" && '[' !in host && ValidPort(port, true) && ValidPort(hostPort, false)
    ensures ParseFields(port + "[" + host + "]" + ":" + hostPort) == Ok(Fields(DEFAULT_BIND, port, host, hostPort))
    ensures ParseFields(port + ":" + "[" + host + "]" + ":" + hostPort) == Ok(Fields(DEFAULT_BIND, port, host, hostPort))
  {
    BracketedHostAccepted(port, host, hostPort);
    AtoiPlain(port);
    PeelPort(port + "[" + host + "]", hostPort, false);
    PeelBracketed(port, host);
    assert TrimSuffix(port, ':') == port;
    assert SplitListen(port) == Ok((DEFAULT_BIND, port));
    hide SplitPort, SplitHost, SplitListen, PortError;
  }

  // ---- lists of forwards ----

  datatype ListResult = All(specs: seq<Spec>) | NoForwards | Invalid(index: nat, error: Error) | DuplicateListen(index: nat)

  /** The first `n` entries are valid and listen on different addresses. */
  ghost predicate GoodUpTo(raws: seq<string>, n: nat) {
    && n <= |raws|
    && (forall i :: 0 <= i < n ==> Parse(raws[i]).Ok?)
    && (forall i, j :: 0 <= i < j < n ==> Parse(raws[i]).value.listen != Parse(raws[j]).value.listen)
  }

  /** Accepts a non-empty list whose entries are all valid and listen on different addresses; otherwise
      names the first entry that is invalid or repeats an earlier address. */
  method ParseAll(raws: seq<string>) returns (r: ListResult)
    ensures r.NoForwards? <==> raws == []
    ensures r.All? ==> GoodUpTo(raws, |raws|) && |r.specs| == |raws|
                       && forall i :: 0 <= i < |raws| ==> Parse(raws[i]) == Ok(r.specs[i])
    ensures r.Invalid? ==> GoodUpTo(raws, r.index) && r.index < |raws| && Parse(raws[r.index]) == Err(r.error)
    ensures r.DuplicateListen? ==>
              GoodUpTo(raws, r.index) && r.index < |raws| && Parse(raws[r.index]).Ok?
              && exists i :: 0 <= i < r.index && Parse(raws[i]).value.listen == Parse(raws[r.index]).value.listen
  {
    hide Parse;
    if raws == [] {
      return NoForwards;
    }
    var result: seq<Spec> := [];
    var seen: set<string> := {};
    for n := 0 to |raws|
      invariant GoodUpTo(raws, n) && |result| == n
      invariant forall i :: 0 <= i < n ==> Parse(raws[i]) == Ok(result[i])
      invariant forall l :: l in seen <==> exists i :: 0 <= i < n && result[i].listen == l
    {
      match Parse(raws[n])
      case Err(e) => return Invalid(n, e);
      case Ok(spec) =>
        if spec.listen in seen {
          return DuplicateListen(n);
        }
        seen := seen + {spec.listen};
        ghost var before := result;
        result := result + [spec];
        assert forall i :: 0 <= i < n ==> result[i] == before[i];
        assert result[n].listen == spec.listen;
    }
    return All(result);
  }

  // ---- when the duplicate check is right ----

  lemma JoinInjective(h: string, p: string, h': string, p': string)
    requires ':' !in p && ':' !in p'
    ensures JoinHostPort(h, p) == JoinHostPort(h', p') <==> h == h' && p == p'
  {
    var b, b' := Bracketed(h), Bracketed(h');
    var s, s' := JoinHostPort(h, p), JoinHostPort(h', p');
    assert s == b + ":" + p && s' == b' + ":" + p';
    if s == s' {
      SplitInjective(b, p, b', p');
      BracketedInjective(h, h');
    }
  }

  function Bracketed(h: string): string {
    if ':' in h then "[" + h + "]" else h
  }

  lemma BracketedInjective(h: string, h': string)
    requires Bracketed(h) == Bracketed(h')
    ensures h == h'
  {
    var b, b' := Bracketed(h), Bracketed(h');
    if ':' in h {
      assert h == b[1..|b| - 1];
    }
    if ':' in h' {
      assert h' == b'[1..|b'| - 1];
    }
  }

  lemma SplitInjective(b: string, p: string, b': string, p': string)
    requires ':' !in p && ':' !in p' && b + ":" + p == b' + ":" + p'
    ensures b == b' && p == p'
  {
    LastIndexOfTail(b, ':', p);
    LastIndexOfTail(b', ':', p');
    var s := b + ":" + p;
    assert |b| == |b'|;
    assert b == s[..|b|] && p == s[|b| + 1..];
    assert b' == s[..|b|] && p' == s[|b| + 1..];
  }

  /** The listen address determines the bind address and the text of the port. */
  lemma ListenInjective(f: Fields, g: Fields)
    requires ValidPort(f.port, true) && ValidPort(g.port, true)
    ensures Listen(f) == Listen(g) <==> f.bind == g.bind && f.port == g.port
  {
    AtoiPlain(f.port);
    AtoiPlain(g.port);
    JoinInjective(f.bind, f.port, g.bind, g.port);
  }

  /** Which bind texts name the same host: given from outside, for instance by resolving them. Equal
      texts always do. */
  type SameHost = (string, string) -> bool

  ghost predicate Reflexive(same: SameHost) {
    forall bind :: same(bind, bind)
  }

  /** The two forwards want one address. Port 0 asks for a port of its own, which nobody else has. */
  predicate SameAddress(same: SameHost, f: Fields, g: Fields) {
    same(f.bind, g.bind) && Atoi(f.port) == Atoi(g.port) != Some(0)
  }

  predicate SameText(f: Fields, g: Fields) {
    f.bind == g.bind && f.port == g.port
  }

  /** Of two accepted entries with one bind text and one port number, the second is reported as a
      duplicate if and only if the texts of their ports are equal. */
  lemma DuplicateExactly(s: string, t: string)
    requires ParseFields(s).Ok? && ParseFields(t).Ok? && ParseFields(s).value.bind == ParseFields(t).value.bind
    requires Atoi(ParseFields(s).value.port) == Atoi(ParseFields(t).value.port)
    ensures !GoodUpTo([s, t], 2) <==> ParseFields(s).value.port == ParseFields(t).value.port
  {
    AcceptedFields(s);
    AcceptedFields(t);
    ListenInjective(ParseFields(s).value, ParseFields(t).value);
    hide ParseFields, Listen;
    if Parse(s).value.listen == Parse(t).value.listen {
      assert [s, t][0] == s && [s, t][1] == t;
    }
  }

  ghost predicate AllAccepted(raws: seq<string>) {
    forall i :: 0 <= i < |raws| ==> ParseFields(raws[i]).Ok?
  }

  function FieldsAt(raws: seq<string>, i: nat): Fields
    requires i < |raws| && ParseFields(raws[i]).Ok?
  {
    ParseFields(raws[i]).value
  }

  /** No two entries want the same address: what the check is for. */
  ghost predicate AddressesApart(same: SameHost, raws: seq<string>)
    requires AllAccepted(raws)
  {
    forall i, j :: 0 <= i < j < |raws| ==> !SameAddress(same, FieldsAt(raws, i), FieldsAt(raws, j))
  }

  /** Two entries are spelled alike, with port 0 or with another port. */
  ghost predicate Repeated(raws: seq<string>, zero: bool)
    requires AllAccepted(raws)
  {
    exists i, j :: 0 <= i < j < |raws| && SameText(FieldsAt(raws, i), FieldsAt(raws, j))
                   && (Atoi(FieldsAt(raws, i).port) == Some(0) <==> zero)
  }

  /** Two entries want one address and are spelled differently, in the bind address or in the port. */
  ghost predicate Respelled(same: SameHost, raws: seq<string>)
    requires AllAccepted(raws)
  {
    exists i, j :: 0 <= i < j < |raws| && SameAddress(same, FieldsAt(raws, i), FieldsAt(raws, j))
                   && !SameText(FieldsAt(raws, i), FieldsAt(raws, j))
  }

  lemma ListenAt(raws: seq<string>, i: nat, j: nat)
    requires AllAccepted(raws) && i < |raws| && j < |raws|
    ensures Parse(raws[i]).Ok? && Parse(raws[j]).Ok?
    ensures Parse(raws[i]).value.listen == Parse(raws[j]).value.listen <==> SameText(FieldsAt(raws, i), FieldsAt(raws, j))
  {
    AcceptedFields(raws[i]);
    AcceptedFields(raws[j]);
    ListenInjective(FieldsAt(raws, i), FieldsAt(raws, j));
  }

  /** A list of valid entries is accepted exactly when no two are spelled alike. */
  lemma AcceptedExactly(raws: seq<string>)
    requires AllAccepted(raws)
    ensures GoodUpTo(raws, |raws|) <==> !Repeated(raws, true) && !Repeated(raws, false)
  {
    hide Parse, ParseFields, FieldsAt, SameText, Atoi;
    forall i | 0 <= i < |raws| ensures Parse(raws[i]).Ok? { ListenAt(raws, i, i); }
    if !GoodUpTo(raws, |raws|) {
      var i, j :| 0 <= i < j < |raws| && Parse(raws[i]).value.listen == Parse(raws[j]).value.listen;
      ListenAt(raws, i, j);
      assert Repeated(raws, Atoi(FieldsAt(raws, i).port) == Some(0));
    } else {
      forall i, j | 0 <= i < j < |raws| ensures !SameText(FieldsAt(raws, i), FieldsAt(raws, j)) {
        ListenAt(raws, i, j);
      }
    }
  }

  /** Two entries want one address exactly when they repeat a port other than 0, or respell an address. */
  lemma AddressesApartExactly(same: SameHost, raws: seq<string>)
    requires AllAccepted(raws) && Reflexive(same)
    ensures AddressesApart(same, raws) <==> !Repeated(raws, false) && !Respelled(same, raws)
  {
    hide ParseFields, FieldsAt, Atoi;
    forall i, j | 0 <= i < j < |raws| && SameText(FieldsAt(raws, i), FieldsAt(raws, j)) && Atoi(FieldsAt(raws, i).port) != Some(0)
      ensures SameAddress(same, FieldsAt(raws, i), FieldsAt(raws, j))
    {
    }
  }

  /** The check decides whether the addresses are apart if and only if some entry with a port other
      than 0 is repeated as it is spelled, or neither one with port 0 is repeated nor an address
      respelled, or both are. */
  lemma DuplicateCheckExactly(same: SameHost, raws: seq<string>)
    requires AllAccepted(raws) && Reflexive(same)
    ensures (GoodUpTo(raws, |raws|) <==> AddressesApart(same, raws)) <==>
            Repeated(raws, false) || (Repeated(raws, true) <==> Respelled(same, raws))
  {
    hide *;
    AcceptedExactly(raws);
    AddressesApartExactly(same, raws);
  }

  /** The bind addresses are spelled in one way per host. */
  ghost predicate OneSpellingPerHost(same: SameHost, raws: seq<string>)
    requires AllAccepted(raws)
  {
    forall i, j :: 0 <= i < |raws| && 0 <= j < |raws| && same(FieldsAt(raws, i).bind, FieldsAt(raws, j).bind) ==>
      FieldsAt(raws, i).bind == FieldsAt(raws, j).bind
  }

  /** With fixed ports in their usual spelling and one spelling per host the check is exact. */
  lemma CanonicalPortsExact(same: SameHost, raws: seq<string>)
    requires AllAccepted(raws) && Reflexive(same) && OneSpellingPerHost(same, raws)
    requires forall i :: 0 <= i < |raws| ==> Canonical(FieldsAt(raws, i).port) && FieldsAt(raws, i).port != "0"
    ensures GoodUpTo(raws, |raws|) <==> AddressesApart(same, raws)
  {
    DuplicateCheckExactly(same, raws);
    forall i, j | 0 <= i < |raws| && 0 <= j < |raws|
      ensures Atoi(FieldsAt(raws, i).port) != Some(0)
      ensures Atoi(FieldsAt(raws, i).port) == Atoi(FieldsAt(raws, j).port) <==> FieldsAt(raws, i).port == FieldsAt(raws, j).port
    {
      CanonicalNumber(FieldsAt(raws, i).port, FieldsAt(raws, j).port);
    }
    hide ParseFields, FieldsAt, Canonical, Atoi;
  }

  lemma CanonicalNumber(p: string, q: string)
    requires Canonical(p) && Canonical(q) && p != "0"
    ensures Atoi(p) != Some(0)
    ensures Atoi(p) == Atoi(q) <==> p == q
  {
    CanonicalValue(p);
    CanonicalValue(q);
    CanonicalUnique(p, q);
    CanonicalUnique(p, "0");
    assert Digits("0") == Some(0);
  }

  /** Two spellings of one host pass together with the same port: any two bind texts in brackets do. */
  lemma RespelledBindPasses(same: SameHost, bind: string, bind': string, port: string, host: string, hostPort: string)
    requires bind != "" && bind' != "" && GoodHost(host) && ValidPort(port, true) && ValidPort(hostPort, false)
    requires same(bind, bind') && Atoi(port) != Some(0)
    ensures var tail := "]" + ":" + port + ":" + JoinHostPort(host, hostPort); var raws := ["[" + bind + tail, "[" + bind' + tail];
            && AllAccepted(raws) && !AddressesApart(same, raws)
            && (GoodUpTo(raws, 2) <==> bind != bind')
  {
    hide GoodHost, ValidPort, ParseFields, AllAccepted, AddressesApart, GoodUpTo, Atoi, JoinHostPort;
    var tail := "]" + ":" + port + ":" + JoinHostPort(host, hostPort);
    BracketedBindParses(bind, port, host, hostPort);
    BracketedBindParses(bind', port, host, hostPort);
    Pair(same, "[" + bind + tail, "[" + bind' + tail);
  }

  lemma BracketedBindParses(bind: string, port: string, host: string, hostPort: string)
    requires bind != "" && GoodHost(host) && ValidPort(port, true) && ValidPort(hostPort, false)
    ensures var tail := "]" + ":" + port + ":" + JoinHostPort(host, hostPort);
            ParseFields("[" + bind + tail) == Ok(Fields(bind, port, host, hostPort))
  {
    hide *;
    var tail := "]" + ":" + port + ":" + JoinHostPort(host, hostPort);
    assert "[" + bind + tail == "[" + bind + "]" + ":" + port + ":" + JoinHostPort(host, hostPort);
    BracketedBindAccepted(bind, port, host, hostPort);
  }

  lemma Pair(same: SameHost, s: string, t: string)
    requires ParseFields(s).Ok? && ParseFields(t).Ok?
    ensures var f, g := ParseFields(s).value, ParseFields(t).value;
            && AllAccepted([s, t])
            && (AddressesApart(same, [s, t]) <==> !SameAddress(same, f, g))
            && (GoodUpTo([s, t], 2) <==> !SameText(f, g))
  {
    var raws := [s, t];
    assert raws[0] == s && raws[1] == t;
    ListenAt(raws, 0, 1);
    hide Parse, ParseFields, SameText, SameAddress;
    assert FieldsAt(raws, 0) == ParseFields(s).value && FieldsAt(raws, 1) == ParseFields(t).value;
  }

  /** Two forwards that both ask for a port of their own are refused, although they never share one. */
  lemma EphemeralPortsAreRefused(same: SameHost, host: string, host': string, hostPort: string, hostPort': string)
    requires host != "" && BracketFree(host) && ValidPort(hostPort, false)
    requires host' != "" && BracketFree(host') && ValidPort(hostPort', false)
    ensures var raws := ["0" + ":" + JoinHostPort(host, hostPort), "0" + ":" + JoinHostPort(host', hostPort')];
            AllAccepted(raws) && AddressesApart(same, raws) && !GoodUpTo(raws, 2)
  {
    assert Atoi("0") == Some(0) && ValidPort("0", true) by { assert Digits("0") == Some(0); }
    hide Atoi, ValidPort, ParseFields, AllAccepted, AddressesApart, GoodUpTo, JoinHostPort, BracketFree;
    OmittedBindParses("0", host, hostPort);
    OmittedBindParses("0", host', hostPort');
    Pair(same, "0" + ":" + JoinHostPort(host, hostPort), "0" + ":" + JoinHostPort(host', hostPort'));
  }

  lemma DefaultListen(port: string, host: string, hostPort: string)
    requires host != "" && BracketFree(host) && ValidPort(port, true) && ValidPort(hostPort, false)
    ensures Parse(port + ":" + JoinHostPort(host, hostPort)) ==
            Ok(Spec(DEFAULT_BIND + ":" + port, JoinHostPort(host, hostPort)))
  {
    OmittedBindParses(port, host, hostPort);
    assert ':' !in DEFAULT_BIND;
    hide ParseFields;
  }

  /** Any two spellings of one port pass together, and only a repeated spelling does not. */
  lemma OtherSpellingPasses(port: string, port': string, host: string, hostPort: string)
    requires ValidPort(port, true) && ValidPort(port', true) && Atoi(port) == Atoi(port')
    requires host != "" && BracketFree(host) && ValidPort(hostPort, false)
    ensures GoodUpTo([port + ":" + JoinHostPort(host, hostPort), port' + ":" + JoinHostPort(host, hostPort)], 2) <==> port != port'
  {
    var s, t := port + ":" + JoinHostPort(host, hostPort), port' + ":" + JoinHostPort(host, hostPort);
    OmittedBindParses(port, host, hostPort);
    OmittedBindParses(port', host, hostPort);
    hide ParseFields;
    DuplicateExactly(s, t);
  }

  lemma SignedPort(port: string)
    requires Digits(port).Some? && ValidPort(port, true)
    ensures Atoi("+" + port) == Atoi(port) && ValidPort("+" + port, true)
  {
    DigitsOnly(port);
    assert ("+" + port)[1..] == port;
  }

  /** A zero in front of the port is such a spelling. */
  lemma PaddedPortIsNotADuplicate(port: string, host: string, hostPort: string)
    requires Digits(port).Some? && ValidPort(port, true) && host != "" && BracketFree(host) && ValidPort(hostPort, false)
    ensures GoodUpTo([port + ":" + JoinHostPort(host, hostPort), "0" + port + ":" + JoinHostPort(host, hostPort)], 2)
    ensures Atoi("0" + port) == Atoi(port)
  {
    LeadingZero(port);
    assert port != "0" + port by { assert |port| != |"0" + port|; }
    assert ValidPort("0" + port, true);
    hide *;
    OtherSpellingPasses(port, "0" + port, host, hostPort);
  }

  /** A sign in front of the port is another. */
  lemma SignedPortIsNotADuplicate(port: string, host: string, hostPort: string)
    requires Digits(port).Some? && ValidPort(port, true) && host != "" && BracketFree(host) && ValidPort(hostPort, false)
    ensures var plain := Parse(port + ":" + JoinHostPort(host, hostPort));
            var signed := Parse("+" + port + ":" + JoinHostPort(host, hostPort));
            && plain == Ok(Spec(DEFAULT_BIND + ":" + port, JoinHostPort(host, hostPort)))
            && signed == Ok(Spec(DEFAULT_BIND + ":" + ("+" + port), JoinHostPort(host, hostPort)))
            && plain.value.listen != signed.value.listen
    ensures Atoi("+" + port) == Atoi(port)
  {
    hide *;
    SignedPort(port);
    DefaultListen(port, host, hostPort);
    DefaultListen("+" + port, host, hostPort);
    assert |DEFAULT_BIND + ":" + ("+" + port)| == |DEFAULT_BIND + ":" + port| + 1;
  }
}
