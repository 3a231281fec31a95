/** SPF records (app/mojodns/spf.py): parsing, validating, rendering and building the terms of
    RFC 7208. Letters are those of ASCII; address syntax is left to two given validators. */
module Spf {
  import opened Wrappers
  import opened Text
  import opened Txt

  datatype Kind =
    | All | Include | A | Mx | Ip4 | Ip6 | Exists | Ptr // mechanisms
    | Redirect | Exp // modifiers
    | Unknown

  function Name(k: Kind): string {
    match k
    case All => "all"
    case Include => "include"
    case A => "a"
    case Mx => "mx"
    case Ip4 => "ip4"
    case Ip6 => "ip6"
    case Exists => "exists"
    case Ptr => "ptr"
    case Redirect => "redirect"
    case Exp => "exp"
    case Unknown => "unknown"
  }

  predicate IsModifier(k: Kind) {
    k.Redirect? || k.Exp?
  }

  /** The mechanisms whose value may be a bare "/prefix". */
  predicate TakesPrefix(k: Kind) {
    k.A? || k.Mx? || k.Ptr?
  }

  predicate CostsLookup(k: Kind) {
    k.Include? || k.A? || k.Mx? || k.Ptr? || k.Exists? || k.Redirect?
  }

  function MechanismNamed(name: string): Option<Kind> {
    if name == "all" then Some(All)
    else if name == "include" then Some(Include)
    else if name == "a" then Some(A)
    else if name == "mx" then Some(Mx)
    else if name == "ip4" then Some(Ip4)
    else if name == "ip6" then Some(Ip6)
    else if name == "exists" then Some(Exists)
    else if name == "ptr" then Some(Ptr)
    else None
  }

  function ModifierNamed(name: string): Option<Kind> {
    if name == "redirect" then Some(Redirect) else if name == "exp" then Some(Exp) else None
  }

  predicate IsQualifier(c: char) {
    c == '+' || c == '-' || c == '~' || c == '?'
  }

  datatype Error =
    | NotSpf
    | AllTakesNoValue
    | RequiresDomain(kind: Kind) | InvalidDomain(domain: string)
    | RequiresAddress(kind: Kind) | InvalidAddress(kind: Kind, address: string)
    | InvalidCidr(cidr: string)
    | UnknownMechanism(name: string)
    | InTerm(token: string, why: Error)
    | TwoRedirects

  /** `qualifier` is the sign as written, if any; modifiers have none. */
  datatype Term = Term(qualifier: Option<char>, kind: Kind, value: string, raw: string, error: Option<Error>)

  /** Whether a text is an IPv4 (IPv6) address or network. */
  datatype Validators = Validators(ip4: string -> bool, ip6: string -> bool)

  // ---- validation --------------------------------------------------------------------------

  predicate IsLetterOrDigit(c: char) {
    'a' <= c <= 'z' || 'A' <= c <= 'Z' || '0' <= c <= '9'
  }

  /** One label: at most 63 characters, no hyphen at either end. */
  predicate IsLabel(s: string, underscore: bool) {
    && 1 <= |s| <= 63
    && s[0] != '-' && s[|s| - 1] != '-'
    && forall c :: c in s ==> IsLetterOrDigit(c) || c == '-' || (underscore && c == '_')
  }

  /** Underscores are allowed in every label but the last; macros are not looked into. */
  predicate ValidDomain(domain: string) {
    var d := TrimRight(domain, IsDot);
    && d != "" && |d| <= 253
    && ('%' in d ||
        var labels := Split(d, '.');
        && (forall i :: 0 <= i < |labels| - 1 ==> IsLabel(labels[i], true))
        && IsLabel(labels[|labels| - 1], false))
  }

  predicate IsDigits(s: string) {
    s != "" && forall i :: 0 <= i < |s| ==> '0' <= s[i] <= '9'
  }

  function Decimal(s: string): nat
    requires forall i :: 0 <= i < |s| ==> '0' <= s[i] <= '9'
  {
    if s == "" then 0
    else
      10 * Decimal(s[..|s| - 1]) + (s[|s| - 1] - '0') as nat
  }

  predicate ValidCidr(s: string) {
    IsDigits(s) && Decimal(s) <= 128
  }

  /** The domain and prefix of an "a", "mx" or "ptr" value. */
  function SplitPrefix(value: string): (string, string) {
    if value != "" && value[0] == '/' then ("", value[1..])
    else
      var i := Find(value, '/');
      if i < |value| then (value[..i], value[i + 1..]) else (value, "")
  }

  function Validate(v: Validators, k: Kind, value: string): Option<Error> {
    match k
    case All => if value != "" then Some(AllTakesNoValue) else None
    case Include | Exists | Redirect | Exp =>
      if value == "" then Some(RequiresDomain(k))
      else if ValidDomain(value) then None else Some(InvalidDomain(value))
    case Ip4 =>
      if value == "" then Some(RequiresAddress(k))
      else if v.ip4(value) then None else Some(InvalidAddress(k, value))
    case Ip6 =>
      if value == "" then Some(RequiresAddress(k))
      else if v.ip6(value) then None else Some(InvalidAddress(k, value))
    case A | Mx | Ptr =>
      var (dom, cidr) := SplitPrefix(value);
      if dom != "" && !ValidDomain(dom) then Some(InvalidDomain(dom))
      else if cidr != "" && !ValidCidr(cidr) then Some(InvalidCidr(cidr))
      else None
    case Unknown => Some(UnknownMechanism(Name(k)))
  }

  // ---- terms -------------------------------------------------------------------------------

  /** A mechanism's name and value: split at the first colon, or before a prefix. */
  function SplitBody(body: string): (string, string) {
    var colon, slash := Find(body, ':'), Find(body, '/');
    if colon < |body| then (body[..colon], body[colon + 1..])
    else if slash < |body| && Lower(body[..slash]) in {"a", "mx", "ptr"} then (body[..slash], body[slash..])
    else (body, "")
  }

  function ParseMechanism(v: Validators, qualifier: Option<char>, body: string, raw: string): Term {
    var (name, value) := SplitBody(body);
    match MechanismNamed(Lower(name))
    case None => Term(qualifier, Unknown, value, raw, Some(UnknownMechanism(name)))
    case Some(k) => Term(qualifier, k, value, raw, Validate(v, k, value))
  }

  function ParseTerm(v: Validators, token: string): Term {
    var eq := Find(token, '=');
    if eq < |token| && ModifierNamed(Lower(token[..eq])).Some? then
      var k := ModifierNamed(Lower(token[..eq])).value;
      Term(None, k, token[eq + 1..], token, Validate(v, k, token[eq + 1..]))
    else if token != "" && IsQualifier(token[0]) then
      ParseMechanism(v, Some(token[0]), token[1..], token)
    else
      ParseMechanism(v, None, token, token)
  }

  function RenderBody(k: Kind, value: string): string {
    if value == "" then Name(k)
    else if TakesPrefix(k) && value[0] == '/' then Name(k) + value
    else Name(k) + ":" + value
  }

  function Sign(q: Option<char>): string {
    if q.Some? then [q.value] else ""
  }

  function RenderTerm(t: Term): string {
    if IsModifier(t.kind) then Name(t.kind) + "=" + t.value
    else Sign(t.qualifier) + RenderBody(t.kind, t.value)
  }

  // ---- rendering and parsing a term --------------------------------------------------------

  predicate IsMechanism(k: Kind) {
    !IsModifier(k) && !k.Unknown?
  }

  lemma NameFacts(k: Kind)
    ensures Lower(Name(k)) == Name(k) && Name(k) != "" && 'a' <= Name(k)[0] <= 'z'
    ensures forall c :: c in Name(k) ==> c != ':' && c != '/' && c != '=' && !IsSpace(c) && c != '"'
  {
    var n := Name(k);
    assert forall i :: 0 <= i < |n| ==> 'a' <= n[i] <= 'z' || '0' <= n[i] <= '9';
  }

  lemma KindOfName(k: Kind)
    ensures IsMechanism(k) ==> MechanismNamed(Name(k)) == Some(k) && ModifierNamed(Name(k)) == None
    ensures IsModifier(k) ==> ModifierNamed(Name(k)) == Some(k)
    ensures TakesPrefix(k) ==> Name(k) in {"a", "mx", "ptr"}
  {
  }

  /** The only value that a rendering cannot carry: a bare prefix with a colon in it. */
  predicate Ambiguous(k: Kind, value: string) {
    TakesPrefix(k) && value != "" && value[0] == '/' && ':' in value
  }

  lemma FindAfter(a: string, c: char, b: string)
    requires c !in a
    ensures Find(a + [c] + b, c) == |a|
  {
    var s := a + [c] + b;
    assert s[..|a|] == a;
    FindAt(s, c, |a|);
  }

  lemma SplitRendered(k: Kind, value: string)
    requires IsMechanism(k) && !Ambiguous(k, value)
    ensures SplitBody(RenderBody(k, value)) == (Name(k), value)
  {
    NameFacts(k);
    KindOfName(k);
    var n, s := Name(k), RenderBody(k, value);
    hide Name, MechanismNamed, ModifierNamed, Lower;
    FindIs(s, ':');
    FindIs(s, '/');
    hide Find;
    if value == "" {
      assert s == n;
    } else if TakesPrefix(k) && value[0] == '/' {
      assert s == n + ['/'] + value[1..];
      FindAfter(n, '/', value[1..]);
      assert s[..|n|] == n && s[|n|..] == value;
      assert ':' !in s;
    } else {
      assert s == n + [':'] + value;
      FindAfter(n, ':', value);
      assert s[..|n|] == n && s[|n| + 1..] == value;
    }
  }

  /** With a colon in its prefix the rendering reads as an unknown mechanism. */
  lemma AmbiguousIsUnknown(k: Kind, value: string)
    requires Ambiguous(k, value)
    ensures MechanismNamed(Lower(SplitBody(RenderBody(k, value)).0)) == None
  {
    NameFacts(k);
    var n, s := Name(k), RenderBody(k, value);
    hide Name;
    var i := Find(s, ':');
    FindIs(s, ':');
    assert s == n + value && value[0] == '/';
    assert s[|n|] == '/' && i > |n| by {
      assert forall j :: 0 <= j < |n| ==> s[j] == n[j] && n[j] in n;
    }
    var name := s[..i];
    assert Lower(name)[|n|] == '/';
    assert '/' in Lower(name);
  }

  lemma ModifierHasNoMark(name: string)
    requires ':' in name || '/' in name
    ensures ModifierNamed(name) == None
  {
  }

  /** A text whose first ":" or "/" comes before any "=" is not a modifier. */
  lemma MarkBeforeEquals(front: string, rest: string)
    requires '=' !in front && (rest != "" ==> rest[0] == ':' || rest[0] == '/')
    ensures var s := front + rest;
            var eq := Find(s, '=');
            eq < |s| ==> ModifierNamed(Lower(s[..eq])) == None
  {
    hide ModifierNamed;
    var s := front + rest;
    var eq := Find(s, '=');
    if eq < |s| {
      assert forall j :: 0 <= j < |front| ==> s[j] == front[j] && front[j] in front;
      assert s[|front|] == rest[0] && eq != |front|;
      var low := Lower(s[..eq]);
      assert low[|front|] == rest[0] && low[|front|] in low;
      ModifierHasNoMark(low);
    }
  }

  /** A rendered mechanism is not mistaken for a modifier: before any "=" of its value comes a
      ":" or "/". */
  lemma RenderedIsNotModifier(q: Option<char>, k: Kind, value: string)
    requires IsMechanism(k) && (q.Some? ==> IsQualifier(q.value))
    ensures var s := Sign(q) + RenderBody(k, value);
            var eq := Find(s, '=');
            eq < |s| ==> ModifierNamed(Lower(s[..eq])) == None
  {
    NameFacts(k);
    var n, body := Name(k), RenderBody(k, value);
    hide Name, ModifierNamed, Find, Lower;
    var rest := body[|n|..];
    assert body == n + rest;
    MarkBeforeEquals(Sign(q) + n, rest);
    assert Sign(q) + n + rest == Sign(q) + body;
  }

  /** Rendering a recognised term and parsing it again gives the term back exactly unless it is
      a bare prefix with a colon in it, which the validator never accepts. */
  lemma RenderReparsesExactly(v: Validators, t: Term)
    requires !t.kind.Unknown? && t.error == Validate(v, t.kind, t.value)
    requires if IsModifier(t.kind) then t.qualifier.None? else t.qualifier.Some? ==> IsQualifier(t.qualifier.value)
    ensures var s := RenderTerm(t);
            ParseTerm(v, s) == t.(raw := s) <==> !Ambiguous(t.kind, t.value)
    ensures Ambiguous(t.kind, t.value) ==> t.error.Some?
  {
    NameFacts(t.kind);
    KindOfName(t.kind);
    var n, s := Name(t.kind), RenderTerm(t);
    hide Name, Validate;
    if IsModifier(t.kind) {
      assert s == n + ['='] + t.value;
      FindAfter(n, '=', t.value);
      assert s[..|n|] == n && s[|n| + 1..] == t.value;
    } else {
      RenderMechanismReparses(v, t);
    }
    if Ambiguous(t.kind, t.value) {
      AmbiguousIsInvalid(v, t.kind, t.value);
    }
  }

  lemma RenderMechanismReparses(v: Validators, t: Term)
    requires IsMechanism(t.kind) && t.error == Validate(v, t.kind, t.value)
    requires t.qualifier.Some? ==> IsQualifier(t.qualifier.value)
    ensures var s := RenderTerm(t);
            ParseTerm(v, s) == t.(raw := s) <==> !Ambiguous(t.kind, t.value)
  {
    hide ParseTerm, ParseMechanism, Validate, Ambiguous, Name;
    RenderParsesAsMechanism(v, t);
    if Ambiguous(t.kind, t.value) {
      AmbiguousParsesUnknown(v, t.qualifier, t.kind, t.value, RenderTerm(t));
    } else {
      ClearParsesBack(v, t.qualifier, t.kind, t.value, RenderTerm(t));
    }
  }

  lemma RenderParsesAsMechanism(v: Validators, t: Term)
    requires IsMechanism(t.kind) && (t.qualifier.Some? ==> IsQualifier(t.qualifier.value))
    ensures var s := RenderTerm(t);
            ParseTerm(v, s) == ParseMechanism(v, t.qualifier, RenderBody(t.kind, t.value), s)
  {
    NameFacts(t.kind);
    var body := RenderBody(t.kind, t.value);
    assert body[0] == Name(t.kind)[0];
    hide Name, RenderBody, ModifierNamed, ParseTerm, ParseMechanism;
    RenderedIsNotModifier(t.qualifier, t.kind, t.value);
    ParseUnmodified(v, t.qualifier, body);
  }

  lemma AmbiguousParsesUnknown(v: Validators, q: Option<char>, k: Kind, value: string, raw: string)
    requires Ambiguous(k, value)
    ensures ParseMechanism(v, q, RenderBody(k, value), raw).kind.Unknown?
  {
    hide Name, RenderBody, SplitBody, MechanismNamed, Lower;
    AmbiguousIsUnknown(k, value);
  }

  lemma ClearParsesBack(v: Validators, q: Option<char>, k: Kind, value: string, raw: string)
    requires IsMechanism(k) && !Ambiguous(k, value)
    ensures ParseMechanism(v, q, RenderBody(k, value), raw) == Term(q, k, value, raw, Validate(v, k, value))
  {
    NameFacts(k);
    KindOfName(k);
    hide Name, RenderBody, SplitBody, MechanismNamed, Lower, Validate;
    SplitRendered(k, value);
  }

  lemma ParseUnmodified(v: Validators, q: Option<char>, body: string)
    requires q.Some? ==> IsQualifier(q.value)
    requires body != "" && !IsQualifier(body[0])
    requires var s := Sign(q) + body; var eq := Find(s, '='); eq < |s| ==> ModifierNamed(Lower(s[..eq])) == None
    ensures ParseTerm(v, Sign(q) + body) == ParseMechanism(v, q, body, Sign(q) + body)
  {
    hide ParseMechanism, ModifierNamed, Lower, Find;
    var s := Sign(q) + body;
    if q.Some? {
      assert s[1..] == body;
    } else {
      assert s == body;
    }
  }

  lemma AmbiguousIsInvalid(v: Validators, k: Kind, value: string)
    requires Ambiguous(k, value)
    ensures Validate(v, k, value).Some?
  {
    var i :| 0 <= i < |value| && value[i] == ':';
    assert value[1..][i - 1] == ':';
    assert !IsDigits(value[1..]);
  }

  lemma ParsedTermShape(v: Validators, token: string)
    ensures var t := ParseTerm(v, token);
            && (!t.kind.Unknown? ==> t.error == Validate(v, t.kind, t.value))
            && (t.kind.Unknown? ==> t.error.Some?)
            && (if IsModifier(t.kind) then t.qualifier.None? else t.qualifier.Some? ==> IsQualifier(t.qualifier.value))
            && (forall c :: c in t.value ==> c in token)
            && t.raw == token
  {
    hide Validate, Lower, Find, ModifierNamed, ParseMechanism;
    if token != "" && IsQualifier(token[0]) {
      MechanismShape(v, Some(token[0]), token[1..], token);
    }
    MechanismShape(v, None, token, token);
    ModifierShape(Lower(token[..Find(token, '=')]));
  }

  lemma ModifierShape(name: string)
    ensures ModifierNamed(name).Some? ==> IsModifier(ModifierNamed(name).value)
  {
  }

  lemma MechanismShape(v: Validators, q: Option<char>, body: string, raw: string)
    ensures var t := ParseMechanism(v, q, body, raw);
            && t.qualifier == q && t.raw == raw && !IsModifier(t.kind)
            && (!t.kind.Unknown? ==> t.error == Validate(v, t.kind, t.value))
            && (t.kind.Unknown? ==> t.error.Some?)
            && (forall c :: c in t.value ==> c in body)
  {
    hide Validate, Lower, Find;
  }

  /** For every token the parser accepts, parsing its rendering gives the same term. */
  lemma TermRoundTrip(v: Validators, token: string)
    requires ParseTerm(v, token).error.None?
    ensures var t := ParseTerm(v, token);
            ParseTerm(v, RenderTerm(t)) == t.(raw := RenderTerm(t))
  {
    ParsedTermShape(v, token);
    RenderReparsesExactly(v, ParseTerm(v, token));
  }

  // ---- rendering never makes a token longer ------------------------------------------------

  lemma ModifierNames(name: string)
    ensures ModifierNamed(name).Some? <==> name == "redirect" || name == "exp"
    ensures ModifierNamed(name).Some? ==>
              Name(ModifierNamed(name).value) == name && IsModifier(ModifierNamed(name).value)
  {
  }

  lemma MechanismNames(name: string)
    ensures MechanismNamed(name).Some? ==> Name(MechanismNamed(name).value) == name
    ensures MechanismNamed(name).Some? ==> IsMechanism(MechanismNamed(name).value)
  {
  }

  lemma BodyNotLonger(v: Validators, q: Option<char>, body: string, raw: string)
    requires !ParseMechanism(v, q, body, raw).kind.Unknown?
    ensures var t := ParseMechanism(v, q, body, raw);
            IsMechanism(t.kind) && |RenderBody(t.kind, t.value)| <= |body| && t.qualifier == q
  {
    var (name, value) := SplitBody(body);
    MechanismNames(Lower(name));
    KindOfName(ParseMechanism(v, q, body, raw).kind);
    assert |Lower(name)| == |name|;
    PrefixTaken(Lower(name));
    hide Lower, Name, MechanismNamed, Validate, Find;
  }

  lemma PrefixTaken(name: string)
    ensures MechanismNamed(name).Some? && name in {"a", "mx", "ptr"} ==> TakesPrefix(MechanismNamed(name).value)
  {
  }

  lemma RenderNotLonger(v: Validators, token: string)
    requires !ParseTerm(v, token).kind.Unknown?
    ensures |RenderTerm(ParseTerm(v, token))| <= |token|
  {
    hide Lower, Name, ModifierNamed, ParseMechanism, Validate, RenderBody;
    ModifierNames(Lower(token[..Find(token, '=')]));
    if token != "" && IsQualifier(token[0]) {
      if !ParseMechanism(v, Some(token[0]), token[1..], token).kind.Unknown? {
        BodyNotLonger(v, Some(token[0]), token[1..], token);
      }
    } else if !ParseMechanism(v, None, token, token).kind.Unknown? {
      BodyNotLonger(v, None, token, token);
    }
  }
}
