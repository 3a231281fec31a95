/** The string operations the panel relies on, as Python defines them. Lower-casing is that of
    ASCII; every other character is left alone. */
module Text {

  /** Whether Python counts a character as white space. */
  predicate IsSpace(c: char) {
    var n := c as int;
    || n == 32 || 9 <= n <= 13 || 28 <= n <= 31 || n == 0x85 || n == 0xA0 || n == 0x1680
    || 0x2000 <= n <= 0x200A || n == 0x2028 || n == 0x2029 || n == 0x202F || n == 0x205F || n == 0x3000
  }

  predicate IsDot(c: char) {
    c == '.'
  }

  function LowerChar(c: char): char {
    if 'A' <= c <= 'Z' then c - 'A' + 'a' else c
  }

  function Lower(s: string): (t: string)
    ensures |t| == |s|
  {
    seq(|s|, i requires 0 <= i < |s| => LowerChar(s[i]))
  }

  function TrimLeft(s: string, p: char -> bool): string {
    if s != "" && p(s[0]) then TrimLeft(s[1..], p) else s
  }

  function TrimRight(s: string, p: char -> bool): string {
    if s != "" && p(s[|s| - 1]) then TrimRight(s[..|s| - 1], p) else s
  }

  /** The length of the run of characters at the front that satisfy (or fail) `p`. */
  function Run(s: string, p: char -> bool, want: bool): (n: nat)
    ensures n <= |s|
    ensures forall i :: 0 <= i < n ==> p(s[i]) == want
    ensures n < |s| ==> p(s[n]) != want
  {
    if s == "" || p(s[0]) != want then 0 else 1 + Run(s[1..], p, want)
  }

  lemma {:induction false} TrimLeftRun(s: string, p: char -> bool)
    ensures TrimLeft(s, p) == s[Run(s, p, true)..]
  {
    if s != "" && p(s[0]) {
      TrimLeftRun(s[1..], p);
      assert s[1..][Run(s[1..], p, true)..] == s[Run(s, p, true)..];
    }
  }

  lemma TrimLeftIs(s: string, p: char -> bool)
    ensures var t := TrimLeft(s, p);
            && |t| <= |s| && t == s[|s| - |t|..]
            && (t != "" ==> !p(t[0]))
            && (forall i :: 0 <= i < |s| - |t| ==> p(s[i]))
  {
    TrimLeftRun(s, p);
    hide TrimLeft, Run;
  }

  lemma {:induction false} TrimRightIs(s: string, p: char -> bool)
    ensures var t := TrimRight(s, p);
            && |t| <= |s| && t == s[..|t|]
            && (t != "" ==> !p(t[|t| - 1]))
            && (forall i :: |t| <= i < |s| ==> p(s[i]))
  {
    if s != "" && p(s[|s| - 1]) {
      TrimRightIs(s[..|s| - 1], p);
    }
  }

  function Trim(s: string, p: char -> bool): string {
    TrimRight(TrimLeft(s, p), p)
  }

  /** Without white space at either end. */
  function Strip(s: string): string {
    Trim(s, IsSpace)
  }

  /** A string that trimming leaves alone. */
  predicate Trimmed(s: string, p: char -> bool) {
    s != "" ==> !p(s[0]) && !p(s[|s| - 1])
  }

  lemma TrimIsIdentity(s: string, p: char -> bool)
    ensures Trimmed(s, p) <==> Trim(s, p) == s
  {
    var l := TrimLeft(s, p);
    TrimLeftIs(s, p);
    TrimRightIs(l, p);
    if Trim(s, p) == s {
      assert |l| == |s| && l == s;
    }
  }

  lemma NothingToTrim(s: string, p: char -> bool)
    requires forall i :: 0 <= i < |s| ==> !p(s[i])
    ensures Trimmed(s, p) && Trim(s, p) == s
  {
    TrimIsIdentity(s, p);
  }

  lemma TrimIsTrimmed(s: string, p: char -> bool)
    ensures Trimmed(Trim(s, p), p)
    ensures forall c :: c in Trim(s, p) ==> c in s
  {
    var l := TrimLeft(s, p);
    var t := TrimRight(l, p);
    TrimLeftIs(s, p);
    TrimRightIs(l, p);
    assert t == l[..|t|];
  }

  /** What stands between the characters to trim is what remains. */
  lemma TrimAround(front: string, s: string, back: string, p: char -> bool)
    requires (forall c :: c in front ==> p(c)) && (forall c :: c in back ==> p(c)) && s != "" && Trimmed(s, p)
    ensures TrimRight(s + back, p) == s && Trim(front + s + back, p) == s
  {
    var t, whole := s + back, front + s + back;
    assert whole[|front|..] == t && whole[|front|] == s[0] && t[|s| - 1] == s[|s| - 1];
    assert forall i :: 0 <= i < |front| ==> whole[i] in front;
    assert forall i :: |s| <= i < |t| ==> t[i] in back;
    TrimLeftIs(whole, p);
    assert TrimLeft(whole, p) == t;
    TrimRightIs(t, p);
    assert t[..|s|] == s;
  }

  lemma LowerIdempotent(s: string)
    ensures Lower(Lower(s)) == Lower(s)
  {
  }

  /** The first position of `c`, or the length of the string. */
  function Find(s: string, c: char): (i: nat)
    ensures i <= |s| && (i < |s| ==> s[i] == c)
  {
    if s == "" || s[0] == c then 0 else 1 + Find(s[1..], c)
  }

  lemma {:induction false} FindIs(s: string, c: char)
    ensures var i := Find(s, c);
            && c !in s[..i]
            && (i == |s| <==> c !in s)
  {
    if s != "" && s[0] != c {
      FindIs(s[1..], c);
      var i := Find(s, c);
      assert s[..i] == [s[0]] + s[1..][..i - 1];
      assert s == [s[0]] + s[1..];
    } else if s != "" {
      assert s[0] in s;
    }
  }

  lemma FindAt(s: string, c: char, i: nat)
    requires i < |s| && s[i] == c && c !in s[..i]
    ensures Find(s, c) == i
  {
    var j := Find(s, c);
    FindIs(s, c);
    assert forall k :: 0 <= k < i ==> s[k] == s[..i][k];
    assert forall k :: 0 <= k < j ==> s[k] == s[..j][k];
  }

  /** The pieces between separators: always at least one. */
  function Split(s: string, c: char): seq<string>
    decreases |s|
  {
    var i := Find(s, c);
    if i == |s| then [s] else [s[..i]] + Split(s[i + 1..], c)
  }

  lemma {:induction false} SplitIs(s: string, c: char)
    ensures |Split(s, c)| >= 1 && forall i :: 0 <= i < |Split(s, c)| ==> c !in Split(s, c)[i]
    decreases |s|
  {
    FindIs(s, c);
    if Find(s, c) < |s| {
      SplitIs(s[Find(s, c) + 1..], c);
    }
  }

  /** The parts with glue in between. */
  function Join(parts: seq<string>, glue: string): string {
    if parts == [] then ""
    else if |parts| == 1 then parts[0]
    else parts[0] + glue + Join(parts[1..], glue)
  }

  lemma SplitStep(s: string, c: char)
    ensures var i := Find(s, c);
            if i == |s| then Split(s, c) == [s] && Join([s], [c]) == s
            else s[i] == c && Split(s[i + 1..], c) != [] && Split(s, c) == [s[..i]] + Split(s[i + 1..], c)
  {
    var i := Find(s, c);
    hide Find;
    if i < |s| {
      SplitNotEmpty(s[i + 1..], c);
      hide Join;
    } else {
      hide Split;
      assert Split(s, c) == [s] by { SplitWhole(s, c); }
    }
  }

  lemma SplitNotEmpty(s: string, c: char)
    ensures Split(s, c) != []
  {
    hide Find;
  }

  lemma SplitWhole(s: string, c: char)
    requires Find(s, c) == |s|
    ensures Split(s, c) == [s]
  {
    hide Find;
  }

  lemma JoinCons(first: string, rest: seq<string>, glue: string)
    requires rest != []
    ensures Join([first] + rest, glue) == first + glue + Join(rest, glue)
  {
    assert ([first] + rest)[1..] == rest;
  }

  lemma {:induction false} JoinSplit(s: string, c: char)
    ensures Join(Split(s, c), [c]) == s
    decreases |s|
  {
    SplitStep(s, c);
    hide Split, Join, Find;
    var i := Find(s, c);
    if i < |s| {
      var rest := s[i + 1..];
      JoinSplit(rest, c);
      JoinCons(s[..i], Split(rest, c), [c]);
      assert s == s[..i] + [c] + rest;
    }
  }

  lemma {:induction false} SplitJoin(parts: seq<string>, c: char)
    requires parts != [] && forall i :: 0 <= i < |parts| ==> c !in parts[i]
    ensures Split(Join(parts, [c]), c) == parts
  {
    if |parts| > 1 {
      var s := Join(parts, [c]);
      var n := |parts[0]|;
      assert s[..n] == parts[0] && s[n] == c;
      FindAt(s, c, n);
      assert s[n + 1..] == Join(parts[1..], [c]);
      SplitJoin(parts[1..], c);
      assert parts == [parts[0]] + parts[1..];
    }
  }

  // ---- splitting on runs of separators -----------------------------------------------------

  lemma RunIs(s: string, p: char -> bool, want: bool, n: nat)
    requires n <= |s| && (forall i :: 0 <= i < n ==> p(s[i]) == want) && (n < |s| ==> p(s[n]) != want)
    ensures Run(s, p, want) == n
  {
    var m := Run(s, p, want);
    assert m < |s| ==> p(s[m]) != want;
    assert n < |s| ==> p(s[n]) != want;
  }

  /** The pieces between runs of separators, none of them empty. */
  function Tokens(s: string, sep: char -> bool): seq<string>
    decreases |s|
  {
    var a := Run(s, sep, true);
    if a == |s| then []
    else
      var rest := s[a..];
      var b := Run(rest, sep, false);
      assert !sep(rest[0]);
      [rest[..b]] + Tokens(rest[b..], sep)
  }

  /** A piece that a split on `sep` can produce. */
  ghost predicate IsToken(t: string, sep: char -> bool) {
    t != "" && forall c :: c in t ==> !sep(c)
  }

  lemma {:induction false} TokensAreTokens(s: string, sep: char -> bool)
    ensures forall t :: t in Tokens(s, sep) ==> IsToken(t, sep) && forall c :: c in t ==> c in s
    decreases |s|
  {
    var a := Run(s, sep, true);
    if a < |s| {
      var rest := s[a..];
      var b := Run(rest, sep, false);
      assert !sep(rest[0]);
      TokensAreTokens(rest[b..], sep);
      assert forall c :: c in rest[b..] ==> c in s;
    }
  }

  lemma TokenThen(t: string, rest: string, sep: char -> bool)
    requires IsToken(t, sep) && (rest == "" || sep(rest[0]))
    ensures Tokens(t + rest, sep) == [t] + Tokens(rest, sep)
  {
    var s := t + rest;
    assert s[0] == t[0] && t[0] in t;
    RunIs(s, sep, true, 0);
    assert s[0..] == s;
    forall i | 0 <= i < |t| ensures sep(s[i]) == false {
      assert s[i] == t[i] && t[i] in t;
    }
    RunIs(s, sep, false, |t|);
    assert s[..|t|] == t && s[|t|..] == rest;
  }

  lemma SkipSeparators(glue: string, s: string, sep: char -> bool)
    requires forall c :: c in glue ==> sep(c)
    ensures Tokens(glue + s, sep) == Tokens(s, sep)
  {
    hide Run;
    var t := glue + s;
    var a := Run(s, sep, true);
    forall i | 0 <= i < |glue| + a ensures sep(t[i]) {
      if i < |glue| {
        assert t[i] == glue[i] && glue[i] in glue;
      } else {
        assert t[i] == s[i - |glue|];
      }
    }
    RunIs(t, sep, true, |glue| + a);
    assert t[|glue|..] == s;
    TokensFrom(t, s, sep);
  }

  /** A text in front of which only separators stand has the same pieces. */
  lemma TokensFrom(t: string, s: string, sep: char -> bool)
    requires |s| <= |t| && t[|t| - |s|..] == s
    requires Run(t, sep, true) == |t| - |s| + Run(s, sep, true)
    ensures Tokens(t, sep) == Tokens(s, sep)
  {
    hide Run;
    assert t[Run(t, sep, true)..] == s[Run(s, sep, true)..];
  }

  lemma {:induction false} TrailingSeparators(s: string, glue: string, sep: char -> bool)
    requires forall c :: c in glue ==> sep(c)
    ensures Tokens(s + glue, sep) == Tokens(s, sep)
    decreases |s|
  {
    var front, tok, rest := FirstToken(s, sep);
    hide Tokens, IsToken;
    assert glue != "" ==> glue[0] in glue;
    NoTokens(sep);
    if tok == "" {
      SkipSeparators(s, "", sep);
      SkipSeparators(s + glue, "", sep);
      assert s + "" == s && s + glue + "" == s + glue;
    } else {
      assert s + glue == front + (tok + (rest + glue)) && s == front + (tok + rest);
      SkipSeparators(front, tok + rest, sep);
      SkipSeparators(front, tok + (rest + glue), sep);
      TokenThen(tok, rest, sep);
      TokenThen(tok, rest + glue, sep);
      TrailingSeparators(rest, glue, sep);
    }
  }

  /** A text as separators, its first token if it has one, and the rest. */
  lemma FirstToken(s: string, sep: char -> bool) returns (front: string, tok: string, rest: string)
    ensures s == front + tok + rest && forall c :: c in front ==> sep(c)
    ensures tok == "" ==> front == s
    ensures tok != "" ==> IsToken(tok, sep) && (rest == "" || sep(rest[0])) && |rest| < |s|
  {
    var a := Run(s, sep, true);
    front := s[..a];
    var b := Run(s[a..], sep, false);
    tok, rest := s[a..][..b], s[a..][b..];
    assert a < |s| ==> !sep(s[a..][0]);
  }

  /** Splitting does not look at outer separators. */
  lemma TokensOfTrim(s: string, sep: char -> bool)
    ensures Tokens(Trim(s, sep), sep) == Tokens(s, sep)
  {
    var l := TrimLeft(s, sep);
    var t := TrimRight(l, sep);
    TrimLeftIs(s, sep);
    TrimRightIs(l, sep);
    hide TrimLeft, TrimRight;
    assert s == s[..|s| - |l|] + l && l == t + l[|t|..];
    SkipSeparators(s[..|s| - |l|], l, sep);
    TrailingSeparators(t, l[|t|..], sep);
  }

  lemma NoTokens(sep: char -> bool)
    ensures Tokens("", sep) == []
  {
  }

  /** Joining tokens with separators and splitting again gives the tokens back. */
  lemma {:induction false} TokensJoin(tokens: seq<string>, glue: string, sep: char -> bool)
    requires glue != "" && forall c :: c in glue ==> sep(c)
    requires forall t :: t in tokens ==> IsToken(t, sep)
    ensures Tokens(Join(tokens, glue), sep) == tokens
  {
    NoTokens(sep);
    hide Tokens, IsToken;
    if |tokens| == 1 {
      assert tokens[0] + "" == tokens[0];
      TokenThen(tokens[0], "", sep);
      assert tokens == [tokens[0]];
    } else if |tokens| > 1 {
      var rest := Join(tokens[1..], glue);
      TokensJoin(tokens[1..], glue, sep);
      assert Join(tokens, glue) == tokens[0] + (glue + rest);
      assert (glue + rest)[0] == glue[0] && glue[0] in glue;
      TokenThen(tokens[0], glue + rest, sep);
      SkipSeparators(glue, rest, sep);
      assert tokens == [tokens[0]] + tokens[1..];
    }
  }

  // ---- zone, host and key names ------------------------------------------------------------

  /** Without trailing dots. */
  function Bare(name: string): string {
    TrimRight(name, IsDot)
  }

  /** What `Canonical` keeps of a name, but for its case and final dot. */
  function Core(name: string): string {
    Trim(Strip(name), IsDot)
  }

  /** PowerDNS's spelling of a name, as the panel makes it: stripped of white space and then of
      dots, in lower case, with exactly one trailing dot. */
  function Canonical(name: string): string {
    Lower(Core(name)) + "."
  }

  lemma DropDot(b: string)
    requires b == "" || b[|b| - 1] != '.'
    ensures Bare(b + ".") == b && Bare(b) == b
  {
    assert (b + ".")[..|b|] == b;
    assert TrimRight(b, IsDot) == b;
  }

  /** A lower-case name without outer spaces or dots is its own canonical form, bar the dot. */
  lemma CanonicalOfClean(name: string)
    requires Lower(name) == name && Trimmed(name, IsSpace) && Trimmed(name, IsDot)
    ensures Canonical(name) == name + "."
  {
    TrimIsIdentity(name, IsSpace);
    TrimIsIdentity(name, IsDot);
  }

  /** Stripped of spaces and then of dots, the name does not begin with a space again. */
  predicate StartsClean(name: string) {
    Core(name) == "" || !IsSpace(Core(name)[0])
  }

  /** Canonical text is read as it is when a dot is added. */
  lemma AppendDotTrimmed(b: string)
    requires b != "" && b[0] != '.' && b[|b| - 1] != '.' && !IsSpace(b[0])
    ensures Core(b + ".") == b
  {
    var name := b + ".";
    TrimIsIdentity(name, IsSpace);
    DropDot(b);
    assert TrimLeft(name, IsDot) == name;
  }

  /** Dropping a space in front of a dotted text makes it shorter for good. */
  lemma SpaceInFrontDropped(b: string)
    requires b != "" && IsSpace(b[0])
    ensures |Core(b + ".")| < |b|
  {
    var name := b + ".";
    var l := TrimLeft(name, IsSpace);
    TrimLeftIs(name, IsSpace);
    TrimRightIs(l, IsSpace);
    assert name[|b|] == '.' && !IsSpace('.');
    assert l == TrimLeft(name[1..], IsSpace) && |l| <= |b| by { TrimLeftIs(name[1..], IsSpace); }
    assert l != "" && l[|l| - 1] == '.';
    var t := Trim(l, IsDot);
    TrimIsTrimmed(l, IsDot);
    TrimLeftIs(l, IsDot);
    TrimRightIs(TrimLeft(l, IsDot), IsDot);
    assert t == l ==> false;
  }

  lemma LowerKeepsSpaces(s: string)
    ensures forall i :: 0 <= i < |s| ==> IsSpace(Lower(s)[i]) == IsSpace(s[i]) && (Lower(s)[i] == '.' <==> s[i] == '.')
  {
  }

  /** The canonical form of a name is itself canonical exactly when the name starts clean. */
  lemma CanonicalTwiceExactly(name: string)
    ensures Canonical(Canonical(name)) == Canonical(name) <==> StartsClean(name)
  {
    var t := Core(name);
    TrimIsTrimmed(Strip(name), IsDot);
    LowerKeepsSpaces(t);
    LowerIdempotent(t);
    LowerIdempotent(Core(Canonical(name)));
    hide Strip, Trim, Lower, IsSpace;
    var b := Lower(t);
    if b == "" {
      DotIsCanonical();
    } else if IsSpace(b[0]) {
      SpaceInFrontDropped(b);
    } else {
      AppendDotTrimmed(b);
    }
  }

  lemma DotIsCanonical()
    ensures Canonical(".") == "." && Lower("") == ""
  {
    TrimIsIdentity(".", IsSpace);
    assert TrimLeft(".", IsDot) == "";
  }

  /** A dotted name that starts clean is canonical up to case. */
  lemma CanonicalOfDotted(b: string)
    requires b != "" && b[0] != '.' && b[|b| - 1] != '.' && !IsSpace(b[0])
    ensures Canonical(b + ".") == Lower(b) + "."
  {
    AppendDotTrimmed(b);
  }

  lemma {:induction false} TrimLeftConcat(a: string, b: string, p: char -> bool)
    ensures TrimLeft(a + b, p) == if TrimLeft(a, p) != "" then TrimLeft(a, p) + b else TrimLeft(b, p)
  {
    if a == "" {
      assert a + b == b;
    } else {
      assert (a + b)[1..] == a[1..] + b;
      TrimLeftConcat(a[1..], b, p);
    }
  }

  /** What a name starts with once spaces and then dots are dropped from its front. */
  function FrontOf(name: string): string {
    TrimLeft(TrimLeft(name, IsSpace), IsDot)
  }

  /** A name with more than spaces behind those starts clean exactly when a space does not follow. */
  lemma StartsCleanIs(name: string)
    requires var u := FrontOf(name); u == "" || exists j :: 0 <= j < |u| && !IsSpace(u[j])
    ensures StartsClean(name) <==> FrontOf(name) == "" || !IsSpace(FrontOf(name)[0])
  {
    var v, u := TrimLeft(name, IsSpace), FrontOf(name);
    var w, i := TrimRight(v, IsSpace), |v| - |u|;
    TrimLeftIs(v, IsDot);
    TrimRightIs(v, IsSpace);
    assert !IsSpace('.');
    hide IsSpace, TrimLeft, TrimRight;
    assert i <= |w|;
    var front, back := w[..i], w[i..];
    assert w == front + back && forall j :: 0 <= j < i ==> front[j] == v[j];
    TrimLeftConcat(front, back, IsDot);
    AllDropped(front, IsDot);
    AllKept(back, IsDot);
    TrimRightIs(back, IsDot);
  }

  lemma AllKept(s: string, p: char -> bool)
    requires s != "" ==> !p(s[0])
    ensures TrimLeft(s, p) == s
  {
  }

  lemma {:induction false} AllDropped(s: string, p: char -> bool)
    requires forall j :: 0 <= j < |s| ==> p(s[j])
    ensures TrimLeft(s, p) == ""
  {
    if s != "" {
      AllDropped(s[1..], p);
    }
  }

  // ---- numbers -----------------------------------------------------------------------------

  function DigitOf(d: nat): char
    requires d < 10
  {
    '0' + d as char
  }

  /** A natural number in decimal. */
  function ShowNat(n: nat): string {
    if n < 10 then [DigitOf(n)] else ShowNat(n / 10) + [DigitOf(n % 10)]
  }

  lemma {:induction false} ShowNatDigits(n: nat)
    ensures ShowNat(n) != "" && forall i :: 0 <= i < |ShowNat(n)| ==> '0' <= ShowNat(n)[i] <= '9'
  {
    if n >= 10 {
      ShowNatDigits(n / 10);
    }
  }
}
