/** Comma- or space-separated lists typed into a form field: notify targets
    (app/mojodns/notifier.py) and update source ranges (app/mojodns/pdns.py). */
module FormLists {
  import opened Wrappers
  import opened Text

  predicate IsSeparator(c: char) {
    c == ',' || IsSpace(c)
  }

  // ---- notify targets ----------------------------------------------------------------------

  datatype HostPort = HostPort(host: string, port: string)

  predicate IsColon(c: char) {
    c == ':'
  }

  function CountOf(s: string, c: char): nat {
    if s == "" then 0 else (if s[0] == c then 1 else 0) + CountOf(s[1..], c)
  }

  /** `[v6]:port`, `host:port`, or a bare host; an empty port stands for 53. */
  function SplitHostPort(token: string): HostPort {
    var t := Strip(token);
    if t != "" && t[0] == '[' then
      var i := Find(t[1..], ']');
      HostPort(t[1..][..i], TrimLeft(if 1 + i < |t| then t[i + 2..] else "", IsColon))
    else if CountOf(t, ':') == 1 then
      var i := Find(t, ':');
      HostPort(t[..i], if i < |t| then t[i + 1..] else "")
    else HostPort(t, "")
  }

  /** The validators of foreign libraries: IP literals, host names, integers, and IP networks
      with the canonical text they are printed as. */
  datatype Syntax = Syntax(
    isIp: string -> bool, isHostname: string -> bool, isInt: string -> bool,
    network: string -> Option<string>)
  {
    /** A target is kept as it was typed. */
    function Target(token: string): Option<string> {
      var hp := SplitHostPort(token);
      if (hp.port == "" || isInt(hp.port)) && (isIp(hp.host) || isHostname(hp.host)) then Some(token) else None
    }

    /** A printed network is one token, and parses to itself. */
    ghost predicate PrintsNetworks() {
      forall tok :: network(tok).Some? ==>
        IsToken(network(tok).value, IsSeparator) && network(network(tok).value) == network(tok)
    }
  }

  // ---- lists -------------------------------------------------------------------------------

  /** The entries of a token list, each checked and normalised by `check`, repeats dropped; or
      the first bad token. */
  function Entries(check: string -> Option<string>, tokens: seq<string>): Result<seq<string>, string> {
    if tokens == [] then Ok([])
    else
      var n := |tokens| - 1;
      match Entries(check, tokens[..n])
      case Err(bad) => Err(bad)
      case Ok(out) =>
        match check(tokens[n])
        case None => Err(tokens[n])
        case Some(e) => Ok(if e in out then out else out + [e])
  }

  /** `parse_targets` and `parse_update_cidrs`: stop at the first bad token. */
  method ParseList(check: string -> Option<string>, raw: string) returns (r: Result<seq<string>, string>)
    ensures r == Entries(check, Tokens(raw, IsSeparator))
  {
    var tokens := Tokens(raw, IsSeparator);
    var out: seq<string> := [];
    for i := 0 to |tokens|
      invariant Entries(check, tokens[..i]) == Ok(out)
    {
      assert tokens[..i + 1][..i] == tokens[..i];
      var e := check(tokens[i]);
      if e.None? {
        BadTokenSticks(check, tokens, i + 1, tokens[i]);
        return Err(tokens[i]);
      }
      if e.value !in out {
        out := out + [e.value];
      }
    }
    assert tokens[..|tokens|] == tokens;
    r := Ok(out);
  }

  lemma {:induction false} BadTokenSticks(check: string -> Option<string>, tokens: seq<string>, i: nat, bad: string)
    requires i <= |tokens| && Entries(check, tokens[..i]) == Err(bad)
    ensures Entries(check, tokens) == Err(bad)
    decreases |tokens|
  {
    if i < |tokens| {
      var n := |tokens| - 1;
      assert tokens[..n][..i] == tokens[..i];
      BadTokenSticks(check, tokens[..n], i, bad);
    } else {
      assert tokens[..i] == tokens;
    }
  }

  /** The list holds every checked token exactly once. */
  lemma {:induction false} EntriesAre(check: string -> Option<string>, tokens: seq<string>)
    requires Entries(check, tokens).Ok?
    ensures var out := Entries(check, tokens).value;
            && (forall e :: e in out <==> exists t :: t in tokens && check(t) == Some(e))
            && (forall i, j :: 0 <= i < j < |out| ==> out[i] != out[j])
  {
    if tokens != [] {
      var n := |tokens| - 1;
      EntriesAre(check, tokens[..n]);
      var front, e := Entries(check, tokens[..n]).value, check(tokens[n]).value;
      assert Entries(check, tokens).value == if e in front then front else front + [e];
      assert tokens == tokens[..n] + [tokens[n]];
      hide Entries;
    }
  }

  /** Parsing fails exactly when some token is bad, and names the first one. */
  lemma {:induction false} FirstBadToken(check: string -> Option<string>, tokens: seq<string>)
    ensures Entries(check, tokens).Err? <==> exists t :: t in tokens && check(t).None?
    ensures Entries(check, tokens).Err? ==>
              exists i :: 0 <= i < |tokens| && tokens[i] == Entries(check, tokens).error && IsFirstBad(check, tokens, i)
  {
    if tokens != [] {
      var n := |tokens| - 1;
      FirstBadToken(check, tokens[..n]);
      assert tokens == tokens[..n] + [tokens[n]];
      if i :| Entries(check, tokens[..n]).Err? && 0 <= i < n
              && tokens[..n][i] == Entries(check, tokens[..n]).error && IsFirstBad(check, tokens[..n], i) {
        assert forall j :: 0 <= j < n ==> tokens[..n][j] == tokens[j];
        assert IsFirstBad(check, tokens, i);
      } else if check(tokens[n]).None? {
        assert forall j :: 0 <= j < n ==> tokens[j] in tokens[..n];
        assert IsFirstBad(check, tokens, n);
      }
    }
  }

  predicate IsFirstBad(check: string -> Option<string>, tokens: seq<string>, i: nat)
    requires i < |tokens|
  {
    check(tokens[i]).None? && forall j :: 0 <= j < i ==> check(tokens[j]).Some?
  }

  /** Distinct entries that `check` leaves alone parse to themselves. */
  lemma {:induction false} EntriesOfEntries(check: string -> Option<string>, out: seq<string>)
    requires forall e :: e in out ==> check(e) == Some(e)
    requires forall i, j :: 0 <= i < j < |out| ==> out[i] != out[j]
    ensures Entries(check, out) == Ok(out)
  {
    if out != [] {
      var n := |out| - 1;
      assert out == out[..n] + [out[n]];
      EntriesOfEntries(check, out[..n]);
      assert out[n] in out && out[n] !in out[..n];
    }
  }

  /** A check that normalises: what it returns is one token that it leaves alone. */
  ghost predicate Normalises(check: string -> Option<string>) {
    forall t {:trigger check(t)} :: IsToken(t, IsSeparator) && check(t).Some? ==>
      IsToken(check(t).value, IsSeparator) && check(check(t).value) == check(t)
  }

  lemma EntriesNormal(check: string -> Option<string>, raw: string)
    requires Normalises(check) && Entries(check, Tokens(raw, IsSeparator)).Ok?
    ensures forall e :: e in Entries(check, Tokens(raw, IsSeparator)).value ==>
              IsToken(e, IsSeparator) && check(e) == Some(e)
  {
    hide IsToken, Tokens;
    var tokens := Tokens(raw, IsSeparator);
    EntriesAre(check, tokens);
    TokensAreTokens(raw, IsSeparator);
    forall e | e in Entries(check, tokens).value ensures IsToken(e, IsSeparator) && check(e) == Some(e) {
      var t :| t in tokens && check(t) == Some(e);
    }
  }

  /** Showing a parsed list in the form, joined by ", ", and parsing it again gives it back. */
  lemma ListRoundTrip(check: string -> Option<string>, raw: string)
    requires Normalises(check)
    requires Entries(check, Tokens(raw, IsSeparator)).Ok?
    ensures var out := Entries(check, Tokens(raw, IsSeparator)).value;
            Entries(check, Tokens(Join(out, ", "), IsSeparator)) == Ok(out)
  {
    assert forall c :: c in ", " ==> IsSeparator(c);
    hide IsToken, IsSeparator, Tokens, Join, Normalises;
    var out := Entries(check, Tokens(raw, IsSeparator)).value;
    EntriesAre(check, Tokens(raw, IsSeparator));
    EntriesNormal(check, raw);
    TokensJoin(out, ", ", IsSeparator);
    EntriesOfEntries(check, out);
  }

  lemma TargetsRoundTrip(syn: Syntax, raw: string)
    requires Entries(syn.Target, Tokens(raw, IsSeparator)).Ok?
    ensures var out := Entries(syn.Target, Tokens(raw, IsSeparator)).value;
            && Entries(syn.Target, Tokens(Join(out, ", "), IsSeparator)) == Ok(out)
            && forall i, j :: 0 <= i < j < |out| ==> out[i] != out[j]
  {
    ListRoundTrip(syn.Target, raw);
    EntriesAre(syn.Target, Tokens(raw, IsSeparator));
  }

  lemma RangesRoundTrip(syn: Syntax, raw: string)
    requires syn.PrintsNetworks()
    requires Entries(syn.network, Tokens(raw, IsSeparator)).Ok?
    ensures var out := Entries(syn.network, Tokens(raw, IsSeparator)).value;
            && Entries(syn.network, Tokens(Join(out, ", "), IsSeparator)) == Ok(out)
            && forall i, j :: 0 <= i < j < |out| ==> out[i] != out[j]
  {
    ListRoundTrip(syn.network, raw);
    EntriesAre(syn.network, Tokens(raw, IsSeparator));
  }

  // ---- reading a target --------------------------------------------------------------------

  lemma {:induction false} CountAbsent(s: string, c: char)
    requires c !in s
    ensures CountOf(s, c) == 0
  {
    if s != "" {
      CountAbsent(s[1..], c);
    }
  }

  lemma {:induction false} CountConcat(a: string, b: string, c: char)
    ensures CountOf(a + b, c) == CountOf(a, c) + CountOf(b, c)
  {
    if a == "" {
      assert a + b == b;
    } else {
      assert (a + b)[1..] == a[1..] + b;
      CountConcat(a[1..], b, c);
    }
  }

  /** A host or address without colons or brackets, and a port. */
  ghost predicate PlainPart(s: string) {
    s != "" && forall c :: c in s ==> c != ':' && c != '[' && c != ']' && !IsSpace(c)
  }

  lemma TokenIsStripped(t: string)
    requires t != "" && forall c :: c in t ==> !IsSpace(c)
    ensures Strip(t) == t
  {
    assert forall i :: 0 <= i < |t| ==> t[i] in t;
    NothingToTrim(t, IsSpace);
  }

  /** Every way a target is written is read back as its host and port: a bare host, ... */
  lemma BareForm(host: string)
    requires PlainPart(host)
    ensures SplitHostPort(host) == HostPort(host, "")
  {
    assert host[0] in host;
    hide Strip, IsSpace, CountOf;
    TokenIsStripped(host);
    CountAbsent(host, ':');
  }

  /** ... a host with a port, ... */
  lemma PortForm(host: string, port: string)
    requires PlainPart(host) && PlainPart(port)
    ensures SplitHostPort(host + ":" + port) == HostPort(host, port)
  {
    var t := host + ":" + port;
    OneColon(host, port);
    assert !IsSpace(':') && host[0] in host;
    hide Strip, IsSpace, CountOf, Find;
    TokenIsStripped(t);
    assert t == host + [':'] + port && t[..|host|] == host && t[|host| + 1..] == port;
    FindAt(t, ':', |host|);
  }

  lemma OneColon(host: string, port: string)
    requires ':' !in host && ':' !in port
    ensures CountOf(host + ":" + port, ':') == 1
  {
    assert CountOf(":", ':') == 1;
    hide CountOf;
    CountAbsent(host, ':');
    CountAbsent(port, ':');
    CountConcat(host + ":", port, ':');
    CountConcat(host, ":", ':');
  }

  /** ... or an IPv6 address in brackets with a port. */
  lemma BracketedSixForm(address: string, port: string)
    requires PlainPart(port) && forall c :: c in address ==> c != ']' && !IsSpace(c)
    ensures SplitHostPort("[" + address + "]:" + port) == HostPort(address, port)
  {
    var t, body := "[" + address + "]:" + port, address + "]:" + port;
    BracketedToken(address, port);
    assert port[0] in port;
    hide Strip, IsSpace, TrimLeft, CountOf, SplitHostPort, PlainPart, Find;
    TokenIsStripped(t);
    BracketedPieces(address, port);
    BracketCloses(address, port);
    TrimColon(t[|address| + 2..], port);
    BracketRead(t, |address|);
  }

  lemma BracketedPieces(address: string, port: string)
    ensures var t, body := "[" + address + "]:" + port, address + "]:" + port;
            && t[0] == '[' && t[1..] == body && body[..|address|] == address && t[|address| + 2..] == ":" + port
  {
  }

  lemma BracketedToken(address: string, port: string)
    requires PlainPart(port) && forall c :: c in address ==> !IsSpace(c)
    ensures forall c :: c in "[" + address + "]:" + port ==> !IsSpace(c)
  {
    assert !IsSpace('[') && !IsSpace(']') && !IsSpace(':');
    hide IsSpace;
  }

  lemma BracketCloses(address: string, port: string)
    requires forall c :: c in address ==> c != ']'
    ensures Find(address + "]:" + port, ']') == |address|
  {
    var body := address + "]:" + port;
    assert body[..|address|] == address && body[|address|] == ']';
    FindAt(body, ']', |address|);
  }

  lemma BracketRead(t: string, n: nat)
    requires Strip(t) == t && t != "" && t[0] == '[' && Find(t[1..], ']') == n && n + 2 <= |t|
    ensures SplitHostPort(t) == HostPort(t[1..][..n], TrimLeft(t[n + 2..], IsColon))
  {
    hide Strip, Find, TrimLeft;
  }

  lemma TrimColon(rest: string, port: string)
    requires rest == ":" + port && port != "" && port[0] != ':'
    ensures TrimLeft(rest, IsColon) == port
  {
    assert rest[1..] == port;
    assert TrimLeft(port, IsColon) == port;
  }

  lemma {:induction false} CountMember(s: string, c: char)
    requires c in s
    ensures CountOf(s, c) >= 1
  {
    if s[0] != c { CountMember(s[1..], c); }
  }

  /** An address with two colons or more, such as a bare IPv6 address, has no port. */
  lemma ManyColonsForm(t: string, i: nat, j: nat)
    requires i < j < |t| && t[i] == t[j] == ':' && t[0] != '[' && forall c :: c in t ==> !IsSpace(c)
    ensures SplitHostPort(t) == HostPort(t, "")
  {
    hide Strip, IsSpace, CountOf;
    TokenIsStripped(t);
    assert t == t[..j] + t[j..] && t[..j][i] == ':' && t[j..][0] == ':';
    CountConcat(t[..j], t[j..], ':');
    CountMember(t[..j], ':');
    CountMember(t[j..], ':');
  }

  /** An address in brackets may stand without a port. */
  lemma BracketsForm(address: string)
    requires forall c :: c in address ==> c != ']' && !IsSpace(c)
    ensures SplitHostPort("[" + address + "]") == HostPort(address, "")
  {
    var t, body := "[" + address + "]", address + "]";
    assert !IsSpace('[') && !IsSpace(']');
    hide Strip, IsSpace, CountOf, Find, SplitHostPort;
    assert t[0] == '[' && t[1..] == body && body[..|address|] == address && body[|address|] == ']';
    TokenIsStripped(t);
    FindAt(body, ']', |address|);
    assert t[|address| + 2..] == "";
    BracketRead(t, |address|);
  }

  /** Which targets are kept, and that they are kept as typed: a host or address alone, with a port
      that is an integer, in brackets, or with many colons. */
  lemma TargetsAccepted(syn: Syntax, host: string, port: string, six: string, i: nat, j: nat)
    requires PlainPart(host) && PlainPart(port)
    requires i < j < |six| && six[i] == six[j] == ':' && six[0] != '[' && forall c :: c in six ==> c != ']' && !IsSpace(c)
    ensures var ok, six0 := syn.isIp(host) || syn.isHostname(host), syn.isIp(six) || syn.isHostname(six);
            && syn.Target(host) == (if ok then Some(host) else None)
            && syn.Target(host + ":" + port) == (if ok && syn.isInt(port) then Some(host + ":" + port) else None)
            && syn.Target(six) == (if six0 then Some(six) else None)
            && syn.Target("[" + six + "]") == (if six0 then Some("[" + six + "]") else None)
            && syn.Target("[" + six + "]:" + port) ==
               (if six0 && syn.isInt(port) then Some("[" + six + "]:" + port) else None)
  {
    hide SplitHostPort, IsSpace;
    BareForm(host);
    PortForm(host, port);
    ManyColonsForm(six, i, j);
    BracketsForm(six);
    BracketedSixForm(six, port);
    assert port != "";
  }
}
