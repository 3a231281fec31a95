/** What an SPF record means to a mail receiver (check_host, sections 4.6, 5.1 and 6 of RFC 7208),
    and whether the panel's warnings about it are sound: whether the terms it calls never
    evaluated or ignored can be deleted without changing the outcome. */
module SpfMeaning {
  import opened Wrappers
  import opened Text
  import opened Txt
  import opened Spf
  import opened SpfRecord
  import opened SpfJs

  datatype Match = Matches | NoMatch | TempFail | PermFail

  datatype Verdict = Pass | Fail | SoftFail | Neutral | TempError | PermError | NoRecord

  /** Everything outside the record: how each mechanism compares with the sender, the lookups an
      "include" or "redirect" spends in the record it refers to, and the verdict of a record
      redirected to. */
  datatype World = World(match_: (Kind, string) -> Match, nested: (Kind, string) -> nat, redirect: string -> Verdict)

  /** The most lookups an evaluation may spend; None for no limit. */
  type Limit = Option<nat>

  /** Section 4.6.4. */
  const STANDARD: Limit := Some(LOOKUP_LIMIT)

  predicate Exceeds(limit: Limit, used: nat) {
    limit.Some? && used > limit.value
  }

  function Cost(w: World, k: Kind, value: string): nat {
    if CostsLookup(k) then 1 + w.nested(k, value) else 0
  }

  function VerdictOf(q: Option<char>): Verdict {
    if q == Some('-') then Fail
    else if q == Some('~') then SoftFail
    else if q == Some('?') then Neutral
    else Pass
  }

  /** What one mechanism decides; "all" always matches. */
  function Decides(w: World, t: Term): Option<Verdict> {
    match if t.kind.All? then Matches else w.match_(t.kind, t.value)
    case Matches => Some(VerdictOf(t.qualifier))
    case NoMatch => None
    case TempFail => Some(TempError)
    case PermFail => Some(PermError)
  }

  /** An evaluation under way, with the lookups spent, or at its end. */
  datatype Progress = Running(used: nat) | Decided(verdict: Verdict)

  /** Modifiers decide nothing; a lookup beyond the limit is a permanent error. */
  function Next(w: World, limit: Limit, p: Progress, t: Term): Progress {
    if p.Decided? || !IsMechanism(t.kind) then p
    else
      var used := p.used + Cost(w, t.kind, t.value);
      if Exceeds(limit, used) then Decided(PermError)
      else if Decides(w, t).Some? then Decided(Decides(w, t).value)
      else Running(used)
  }

  /** Mechanisms are evaluated left to right until one decides. */
  function Evaluated(w: World, limit: Limit, terms: seq<Term>): Progress {
    if terms == [] then Running(0)
    else Next(w, limit, Evaluated(w, limit, terms[..|terms| - 1]), terms[|terms| - 1])
  }

  function FirstValue(terms: seq<Term>, k: Kind): Option<string> {
    if terms == [] then None
    else
      var n := |terms| - 1;
      var earlier := FirstValue(terms[..n], k);
      if earlier.Some? then earlier
      else if terms[n].kind == k then Some(terms[n].value) else None
  }

  /** Section 6 makes a repeated modifier a permanent error; "redirect" counts only when no
      mechanism decides. */
  function CheckHost(w: World, limit: Limit, terms: seq<Term>): Verdict {
    if Count(terms, Redirect) > 1 || Count(terms, Exp) > 1 then PermError
    else
      match Evaluated(w, limit, terms)
      case Decided(v) => v
      case Running(used) =>
        match FirstValue(terms, Redirect)
        case None => Neutral
        case Some(d) => if Exceeds(limit, used + Cost(w, Redirect, d)) then PermError else w.redirect(d)
  }

  /** The explanation a receiver may show: that of "exp" when a mechanism of this record fails. A
      permanent error has none. */
  function Explanation(w: World, limit: Limit, terms: seq<Term>): Option<string> {
    if Count(terms, Redirect) > 1 || Count(terms, Exp) > 1 then None
    else if Evaluated(w, limit, terms) == Decided(Fail) then FirstValue(terms, Exp)
    else None
  }

  // ---- cleaning up a record as its warnings suggest ----------------------------------------

  /** Without the terms reported as coming after "all". */
  function Unflagged(terms: seq<Term>, n: nat): seq<Term>
    requires n <= |terms|
  {
    if n == 0 then []
    else Unflagged(terms, n - 1) + (if Late(terms, n - 1) then [] else [terms[n - 1]])
  }

  function NoRedirects(terms: seq<Term>): seq<Term> {
    if terms == [] then []
    else
      var n := |terms| - 1;
      NoRedirects(terms[..n]) + (if terms[n].kind.Redirect? then [] else [terms[n]])
  }

  /** Without late terms, without "redirect" when "all" is present, without explicit "+". */
  function Cleaned(terms: seq<Term>): seq<Term> {
    var early := Unflagged(terms, |terms|);
    WithoutPlus(if Count(terms, All) > 0 then NoRedirects(early) else early)
  }

  lemma SnocEvaluated(w: World, limit: Limit, terms: seq<Term>, t: Term)
    ensures Evaluated(w, limit, terms + [t]) == Next(w, limit, Evaluated(w, limit, terms), t)
  {
    assert (terms + [t])[..|terms|] == terms;
  }

  lemma {:induction false} AllDecides(w: World, limit: Limit, terms: seq<Term>)
    requires Count(terms, All) > 0
    ensures Evaluated(w, limit, terms).Decided?
  {
    var n := |terms| - 1;
    if !terms[n].kind.All? {
      AllDecides(w, limit, terms[..n]);
    }
  }

  lemma SnocCount(terms: seq<Term>, t: Term, k: Kind)
    ensures Count(terms + [t], k) == Count(terms, k) + (if t.kind == k then 1 else 0)
  {
    assert (terms + [t])[..|terms|] == terms;
  }

  lemma SnocValue(terms: seq<Term>, t: Term, k: Kind)
    ensures FirstValue(terms + [t], k) ==
            if FirstValue(terms, k).Some? then FirstValue(terms, k) else if t.kind == k then Some(t.value) else None
  {
    assert (terms + [t])[..|terms|] == terms;
  }

  lemma UnflaggedNext(terms: seq<Term>, n: nat)
    requires n < |terms|
    ensures Unflagged(terms, n + 1) ==
            if Late(terms, n) then Unflagged(terms, n) else Unflagged(terms, n) + [terms[n]]
    ensures terms[..n + 1] == terms[..n] + [terms[n]]
  {
    hide Late;
    assert Unflagged(terms, n) + [] == Unflagged(terms, n);
  }

  lemma UnflaggedNone(terms: seq<Term>)
    ensures Unflagged(terms, 0) == [] == terms[..0]
  {
  }

  lemma {:induction false} UnflaggedEvaluated(w: World, limit: Limit, terms: seq<Term>, n: nat)
    requires n <= |terms|
    ensures Evaluated(w, limit, Unflagged(terms, n)) == Evaluated(w, limit, terms[..n])
  {
    UnflaggedNone(terms);
    hide Unflagged, Evaluated, Decides;
    if n > 0 {
      UnflaggedEvaluated(w, limit, terms, n - 1);
      UnflaggedNext(terms, n - 1);
      SnocEvaluated(w, limit, terms[..n - 1], terms[n - 1]);
      SnocEvaluated(w, limit, Unflagged(terms, n - 1), terms[n - 1]);
      if Late(terms, n - 1) {
        AllDecides(w, limit, terms[..n - 1]);
      }
    }
  }

  lemma {:induction false} NoRedirectsEvaluated(w: World, limit: Limit, terms: seq<Term>)
    ensures Evaluated(w, limit, NoRedirects(terms)) == Evaluated(w, limit, terms)
  {
    if terms != [] {
      var n := |terms| - 1;
      NoRedirectsEvaluated(w, limit, terms[..n]);
      assert terms == terms[..n] + [terms[n]];
      SnocEvaluated(w, limit, terms[..n], terms[n]);
      SnocEvaluated(w, limit, NoRedirects(terms[..n]), terms[n]);
      assert NoRedirects(terms[..n]) + [] == NoRedirects(terms[..n]);
      hide Evaluated;
    }
  }

  lemma {:induction false} WithoutPlusSame(w: World, limit: Limit, terms: seq<Term>)
    ensures Evaluated(w, limit, WithoutPlus(terms)) == Evaluated(w, limit, terms)
    ensures forall k :: FirstValue(WithoutPlus(terms), k) == FirstValue(terms, k)
  {
    if terms != [] {
      var n := |terms| - 1;
      WithoutPlusSame(w, limit, terms[..n]);
      assert WithoutPlus(terms)[..n] == WithoutPlus(terms[..n]);
    }
  }

  /** Deleting what the warnings point at never changes what the mechanisms decide, nor the lookups
      they spend, under any limit. */
  lemma CleanedEvaluated(w: World, limit: Limit, terms: seq<Term>)
    ensures Evaluated(w, limit, Cleaned(terms)) == Evaluated(w, limit, terms)
  {
    var early := Unflagged(terms, |terms|);
    UnflaggedEvaluated(w, limit, terms, |terms|);
    assert terms[..|terms|] == terms;
    NoRedirectsEvaluated(w, limit, early);
    WithoutPlusSame(w, limit, if Count(terms, All) > 0 then NoRedirects(early) else early);
  }

  lemma {:induction false} NothingLateWithoutAll(terms: seq<Term>, n: nat)
    requires n <= |terms| && Count(terms, All) == 0
    ensures Unflagged(terms, n) == terms[..n]
  {
    UnflaggedNone(terms);
    if n > 0 {
      NothingLateWithoutAll(terms, n - 1);
      CountGrows(terms, n - 1, All);
      UnflaggedNext(terms, n - 1);
      hide Unflagged, Count;
    }
  }

  lemma {:induction false} CountGrows(terms: seq<Term>, n: nat, k: Kind)
    requires n <= |terms|
    ensures Count(terms[..n], k) <= Count(terms, k)
    decreases |terms| - n
  {
    if n < |terms| {
      assert terms[..n + 1][..n] == terms[..n];
      CountGrows(terms, n + 1, k);
    } else {
      assert terms[..n] == terms;
    }
  }

  lemma {:induction false} UnflaggedCount(terms: seq<Term>, n: nat, k: Kind)
    requires n <= |terms|
    ensures Count(Unflagged(terms, n), k) <= Count(terms[..n], k)
  {
    UnflaggedNone(terms);
    hide Count, Late, Unflagged;
    if n > 0 {
      UnflaggedCount(terms, n - 1, k);
      UnflaggedNext(terms, n - 1);
      SnocCount(terms[..n - 1], terms[n - 1], k);
      SnocCount(Unflagged(terms, n - 1), terms[n - 1], k);
    }
  }

  lemma {:induction false} NoRedirectsCount(terms: seq<Term>, k: Kind)
    ensures Count(NoRedirects(terms), k) == if k.Redirect? then 0 else Count(terms, k)
  {
    if terms != [] {
      var n := |terms| - 1;
      NoRedirectsCount(terms[..n], k);
      SnocCount(NoRedirects(terms[..n]), terms[n], k);
      assert NoRedirects(terms[..n]) + [] == NoRedirects(terms[..n]);
    }
  }

  lemma CleanedCount(terms: seq<Term>, k: Kind)
    ensures Count(Cleaned(terms), k) <= Count(terms, k)
  {
    var early := Unflagged(terms, |terms|);
    UnflaggedCount(terms, |terms|, k);
    assert terms[..|terms|] == terms;
    NoRedirectsCount(early, k);
    CountIgnoresPlus(if Count(terms, All) > 0 then NoRedirects(early) else early, k);
  }

  lemma CleanedWithoutAll(terms: seq<Term>)
    requires Count(terms, All) == 0
    ensures Cleaned(terms) == WithoutPlus(terms)
  {
    NothingLateWithoutAll(terms, |terms|);
    assert terms[..|terms|] == terms;
  }

  // ---- when the verdict survives -----------------------------------------------------------

  /** The terms in front of the first "all". */
  function BeforeAll(terms: seq<Term>): seq<Term> {
    if Count(terms, All) == 0 then terms else BeforeAll(terms[..|terms| - 1])
  }

  lemma {:induction false} UnflaggedExps(terms: seq<Term>, n: nat)
    requires n <= |terms|
    ensures Count(Unflagged(terms, n), Exp) == Count(BeforeAll(terms[..n]), Exp)
  {
    UnflaggedNone(terms);
    assert BeforeAll([]) == [];
    hide Unflagged, Count, BeforeAll;
    if n > 0 {
      var front, t := terms[..n - 1], terms[n - 1];
      UnflaggedExps(terms, n - 1);
      UnflaggedNext(terms, n - 1);
      BeforeAllNext(front, t);
      SnocCount(front, t, Exp);
      SnocCount(Unflagged(terms, n - 1), t, Exp);
    }
  }

  lemma BeforeAllNext(front: seq<Term>, t: Term)
    ensures BeforeAll(front + [t]) ==
            if Count(front, All) > 0 || t.kind.All? then BeforeAll(front) else front + [t]
    ensures Count(front, All) == 0 ==> BeforeAll(front) == front
  {
    SnocCount(front, t, All);
    assert (front + [t])[..|front|] == front;
  }

  /** The clean-up keeps exactly the "exp" terms in front of the first "all". */
  lemma CleanedExps(terms: seq<Term>)
    ensures Count(Cleaned(terms), Exp) == Count(BeforeAll(terms), Exp)
  {
    var early := Unflagged(terms, |terms|);
    UnflaggedExps(terms, |terms|);
    assert terms[..|terms|] == terms;
    NoRedirectsCount(early, Exp);
    CountIgnoresPlus(if Count(terms, All) > 0 then NoRedirects(early) else early, Exp);
  }

  /** A sender every mechanism matches. */
  const ANYBODY := World((k: Kind, v: string) => Matches, (k: Kind, v: string) => 0, (v: string) => Pass)

  lemma {:induction false} AnybodyDecides(limit: Limit, terms: seq<Term>)
    requires !Exceeds(limit, 1)
    ensures Evaluated(ANYBODY, limit, terms) == Running(0)
            || exists v :: v != PermError && Evaluated(ANYBODY, limit, terms) == Decided(v)
  {
    if terms != [] {
      AnybodyDecides(limit, terms[..|terms| - 1]);
    }
  }

  /** The verdict survives the clean-up for every sender, under any limit that allows a lookup, if
      and only if the record has at most one "exp", or more than one before its first "all". The
      panel accepts a repeated "exp", which RFC 7208 makes a permanent error, so there deleting
      a late one can repair the record. */
  lemma VerdictKeptExactly(limit: Limit, terms: seq<Term>)
    requires Count(terms, Redirect) <= 1 && !Exceeds(limit, 1)
    ensures (forall w: World :: CheckHost(w, limit, Cleaned(terms)) == CheckHost(w, limit, terms))
            <==> Count(terms, Exp) <= 1 || Count(BeforeAll(terms), Exp) > 1
  {
    CleanedExps(terms);
    CleanedCount(terms, Redirect);
    CleanedCount(terms, Exp);
    hide Cleaned, BeforeAll;
    if Count(terms, Exp) <= 1 || Count(BeforeAll(terms), Exp) > 1 {
      forall w: World ensures CheckHost(w, limit, Cleaned(terms)) == CheckHost(w, limit, terms) {
        VerdictKept(w, limit, terms);
      }
    } else {
      AnybodyDecides(limit, Cleaned(terms));
      hide Evaluated;
      assert CheckHost(ANYBODY, limit, terms) == PermError;
      assert CheckHost(ANYBODY, limit, Cleaned(terms)) != PermError;
    }
  }

  lemma VerdictKept(w: World, limit: Limit, terms: seq<Term>)
    requires Count(terms, Redirect) <= 1
    requires Count(terms, Exp) <= 1 || Count(BeforeAll(terms), Exp) > 1
    ensures CheckHost(w, limit, Cleaned(terms)) == CheckHost(w, limit, terms)
  {
    CleanedExps(terms);
    CleanedCount(terms, Redirect);
    CleanedCount(terms, Exp);
    CleanedEvaluated(w, limit, terms);
    hide Cleaned, BeforeAll, Evaluated;
    if Evaluated(w, limit, terms).Running? {
      if Count(terms, All) > 0 {
        AllDecides(w, limit, terms);
      } else {
        CleanedWithoutAll(terms);
        WithoutPlusSame(w, limit, terms);
      }
    }
  }

  // ---- explanations ------------------------------------------------------------------------

  /** The lookup terms among the mechanisms. */
  function MechanismLookups(terms: seq<Term>): nat {
    if terms == [] then 0
    else
      var t := terms[|terms| - 1];
      MechanismLookups(terms[..|terms| - 1]) + (if IsMechanism(t.kind) && CostsLookup(t.kind) then 1 else 0)
  }

  /** Some sender can be failed by a mechanism: one with "-", before any "all", that no earlier
      mechanism shadows and that the lookup limit lets a receiver reach. */
  predicate CanFail(limit: Limit, terms: seq<Term>) {
    exists i :: 0 <= i < |terms| && FailsAt(limit, terms, i)
  }

  predicate FailsAt(limit: Limit, terms: seq<Term>, i: nat)
    requires i < |terms|
  {
    && IsMechanism(terms[i].kind) && terms[i].qualifier == Some('-')
    && (forall j :: 0 <= j < i ==> !terms[j].kind.All?)
    && (forall j :: 0 <= j < i && IsMechanism(terms[j].kind) ==>
          terms[j].kind != terms[i].kind || terms[j].value != terms[i].value)
    && !Exceeds(limit, MechanismLookups(terms[..i + 1]))
  }

  /** The sender that matches exactly one mechanism besides "all". */
  function OnlyMatching(t: Term): World {
    World((k: Kind, v: string) => if k == t.kind && v == t.value then Matches else NoMatch,
          (k: Kind, v: string) => 0, (v: string) => Pass)
  }

  lemma {:induction false} DecidedStays(w: World, limit: Limit, terms: seq<Term>, n: nat)
    requires n <= |terms| && Evaluated(w, limit, terms[..n]).Decided?
    ensures Evaluated(w, limit, terms) == Evaluated(w, limit, terms[..n])
    decreases |terms| - n
  {
    if n < |terms| {
      assert terms[..n + 1][..n] == terms[..n];
      DecidedStays(w, limit, terms, n + 1);
    } else {
      assert terms[..n] == terms;
    }
  }

  /** While an evaluation runs, no mechanism has matched and the limit has not been exceeded. */
  lemma {:induction false} RunningMeans(w: World, limit: Limit, terms: seq<Term>)
    requires Evaluated(w, limit, terms).Running?
    ensures MechanismLookups(terms) <= Evaluated(w, limit, terms).used
    ensures forall j :: 0 <= j < |terms| && IsMechanism(terms[j].kind) ==> Decides(w, terms[j]) == None
  {
    if terms != [] {
      RunningMeans(w, limit, terms[..|terms| - 1]);
    }
  }

  /** `CanFail` is exact: whoever a mechanism fails shows it, and it shows somebody to fail. */
  lemma {:induction false} CanFailIfFailed(w: World, limit: Limit, terms: seq<Term>)
    requires Evaluated(w, limit, terms) == Decided(Fail)
    ensures CanFail(limit, terms)
  {
    var n := |terms| - 1;
    var front := terms[..n];
    if Evaluated(w, limit, front).Decided? {
      CanFailIfFailed(w, limit, front);
      var i :| 0 <= i < n && FailsAt(limit, front, i);
      assert front[..i + 1] == terms[..i + 1];
      assert FailsAt(limit, terms, i);
    } else {
      RunningMeans(w, limit, front);
      assert terms[..n + 1] == terms && forall j :: 0 <= j < n ==> front[j] == terms[j];
      assert FailsAt(limit, terms, n);
    }
  }

  lemma {:induction false} RunsUpTo(limit: Limit, terms: seq<Term>, t: Term)
    requires forall j :: 0 <= j < |terms| ==> !terms[j].kind.All?
    requires forall j :: 0 <= j < |terms| && IsMechanism(terms[j].kind) ==>
               terms[j].kind != t.kind || terms[j].value != t.value
    requires !Exceeds(limit, MechanismLookups(terms))
    ensures Evaluated(OnlyMatching(t), limit, terms) == Running(MechanismLookups(terms))
  {
    if terms != [] {
      RunsUpTo(limit, terms[..|terms| - 1], t);
    }
  }

  lemma FailsThere(limit: Limit, front: seq<Term>, t: Term)
    requires FailsAt(limit, front + [t], |front|)
    ensures Evaluated(OnlyMatching(t), limit, front + [t]) == Decided(Fail)
  {
    var terms := front + [t];
    assert terms[..|terms|] == terms && terms[..|front|] == front;
    assert forall j :: 0 <= j < |front| ==> front[j] == terms[j];
    assert MechanismLookups(terms) == MechanismLookups(front) + (if CostsLookup(t.kind) then 1 else 0);
    hide MechanismLookups, Evaluated;
    RunsUpTo(limit, front, t);
    SnocEvaluated(OnlyMatching(t), limit, front, t);
  }

  lemma SomebodyFails(limit: Limit, terms: seq<Term>) returns (w: World)
    requires CanFail(limit, terms)
    ensures Evaluated(w, limit, terms) == Decided(Fail)
  {
    var i :| 0 <= i < |terms| && FailsAt(limit, terms, i);
    w := OnlyMatching(terms[i]);
    hide FailsAt, Evaluated, CanFail;
    FailsAtItsPrefix(limit, terms, i);
    FailsThere(limit, terms[..i], terms[i]);
    DecidedStays(w, limit, terms, i + 1);
  }

  lemma FailsAtItsPrefix(limit: Limit, terms: seq<Term>, i: nat)
    requires i < |terms| && FailsAt(limit, terms, i)
    ensures terms[..i + 1] == terms[..i] + [terms[i]] && FailsAt(limit, terms[..i] + [terms[i]], i)
  {
    var front := terms[..i + 1];
    assert front == terms[..i] + [terms[i]] && front[..i + 1] == front;
    hide MechanismLookups;
    assert forall j :: 0 <= j <= i ==> front[j] == terms[j];
  }

  lemma {:induction false} ValueIffCount(terms: seq<Term>, k: Kind)
    ensures FirstValue(terms, k).Some? <==> Count(terms, k) > 0
  {
    if terms != [] {
      ValueIffCount(terms[..|terms| - 1], k);
    }
  }

  lemma {:induction false} UnflaggedExpValue(terms: seq<Term>, n: nat)
    requires n <= |terms|
    ensures FirstValue(Unflagged(terms, n), Exp) == FirstValue(BeforeAll(terms[..n]), Exp)
  {
    UnflaggedNone(terms);
    assert BeforeAll([]) == [];
    hide Unflagged, Count, BeforeAll, FirstValue;
    if n > 0 {
      var front, t := terms[..n - 1], terms[n - 1];
      UnflaggedExpValue(terms, n - 1);
      UnflaggedNext(terms, n - 1);
      BeforeAllNext(front, t);
      var late := Late(terms, n - 1);
      assert t.kind.Exp? ==> (late <==> Count(front, All) > 0);
      hide Late;
      SnocValue(Unflagged(terms, n - 1), t, Exp);
      if Count(front, All) == 0 && !t.kind.All? {
        SnocValue(front, t, Exp);
      }
    }
  }

  lemma {:induction false} BeforeAllValue(terms: seq<Term>, k: Kind)
    requires FirstValue(BeforeAll(terms), k).Some?
    ensures FirstValue(terms, k) == FirstValue(BeforeAll(terms), k)
  {
    if Count(terms, All) > 0 {
      BeforeAllValue(terms[..|terms| - 1], k);
    }
  }

  lemma {:induction false} NoRedirectsValue(terms: seq<Term>, k: Kind)
    requires !k.Redirect?
    ensures FirstValue(NoRedirects(terms), k) == FirstValue(terms, k)
  {
    if terms != [] {
      var n := |terms| - 1;
      NoRedirectsValue(terms[..n], k);
      assert terms == terms[..n] + [terms[n]];
      SnocValue(terms[..n], terms[n], k);
      SnocValue(NoRedirects(terms[..n]), terms[n], k);
      hide FirstValue;
      assert NoRedirects(terms[..n]) + [] == NoRedirects(terms[..n]);
    }
  }

  /** The clean-up keeps the explanation in front of the first "all". */
  lemma CleanedExp(terms: seq<Term>)
    ensures FirstValue(Cleaned(terms), Exp) == FirstValue(BeforeAll(terms), Exp)
  {
    var early := Unflagged(terms, |terms|);
    UnflaggedExpValue(terms, |terms|);
    assert terms[..|terms|] == terms;
    NoRedirectsValue(early, Exp);
    WithoutPlusSame(ANYBODY, None, if Count(terms, All) > 0 then NoRedirects(early) else early);
  }

  /** One "exp" explains; none or a repeated one does not. */
  predicate Explains(terms: seq<Term>) {
    Count(terms, Exp) == 1
  }

  /** A late "exp" is evaluated after all: the clean-up keeps every sender's explanation if and
      only if no mechanism can fail anybody, or the record has exactly one "exp" just when it has
      exactly one before its first "all". */
  lemma ExplanationKeptExactly(limit: Limit, terms: seq<Term>)
    requires Count(terms, Redirect) <= 1
    ensures (forall w: World :: Explanation(w, limit, Cleaned(terms)) == Explanation(w, limit, terms))
            <==> !CanFail(limit, terms) || (Explains(terms) <==> Explains(BeforeAll(terms)))
  {
    CleanedExp(terms);
    CleanedExps(terms);
    CleanedCount(terms, Redirect);
    CleanedCount(terms, Exp);
    ValueIffCount(terms, Exp);
    ValueIffCount(BeforeAll(terms), Exp);
    if Explains(BeforeAll(terms)) { BeforeAllValue(terms, Exp); }
    hide Cleaned, CanFail, BeforeAll, Count, FirstValue, Evaluated;
    forall w: World
      ensures Evaluated(w, limit, Cleaned(terms)) == Evaluated(w, limit, terms)
      ensures Evaluated(w, limit, terms) == Decided(Fail) ==> CanFail(limit, terms)
    {
      CleanedEvaluated(w, limit, terms);
      if Evaluated(w, limit, terms) == Decided(Fail) { CanFailIfFailed(w, limit, terms); }
    }
    if CanFail(limit, terms) && (Explains(terms) <==> !Explains(BeforeAll(terms))) {
      var w := SomebodyFails(limit, terms);
      assert Explanation(w, limit, Cleaned(terms)) != Explanation(w, limit, terms);
    }
  }

  // ---- lookups -----------------------------------------------------------------------------

  /** The lookup terms a receiver evaluates at the top level: mechanisms up to the deciding one,
      and "redirect" when none decides. */
  function MechanismsUsed(w: World, limit: Limit, terms: seq<Term>): nat {
    if terms == [] then 0
    else
      var n := |terms| - 1;
      MechanismsUsed(w, limit, terms[..n])
      + (if Evaluated(w, limit, terms[..n]).Running? && IsMechanism(terms[n].kind) && CostsLookup(terms[n].kind) then 1 else 0)
  }

  function LookupsUsed(w: World, limit: Limit, terms: seq<Term>): nat {
    MechanismsUsed(w, limit, terms)
    + (if Evaluated(w, limit, terms).Running? && FirstValue(terms, Redirect).Some? then 1 else 0)
  }

  /** The panel's lookup count bounds what any receiver spends on the record itself. */
  lemma {:induction false} LookupsBounded(w: World, limit: Limit, terms: seq<Term>)
    ensures LookupsUsed(w, limit, terms) <= Lookups(terms)
  {
    if terms != [] {
      LookupsBounded(w, limit, terms[..|terms| - 1]);
    }
  }

  /** The most lookups the record itself can cost a sender: the mechanisms before the first "all",
      and "redirect" when there is none. */
  function Reachable(terms: seq<Term>): nat {
    MechanismLookups(BeforeAll(terms)) + (if Count(terms, All) == 0 && Count(terms, Redirect) > 0 then 1 else 0)
  }

  lemma {:induction false} LookupsSplit(terms: seq<Term>)
    ensures Lookups(terms) == MechanismLookups(terms) + Count(terms, Redirect)
  {
    if terms != [] {
      LookupsSplit(terms[..|terms| - 1]);
    }
  }

  lemma {:induction false} BeforeAllLookups(terms: seq<Term>)
    ensures MechanismLookups(BeforeAll(terms)) <= MechanismLookups(terms)
  {
    if Count(terms, All) > 0 {
      BeforeAllLookups(terms[..|terms| - 1]);
    }
  }

  lemma ReachableCounted(terms: seq<Term>)
    ensures Reachable(terms) <= Lookups(terms)
  {
    LookupsSplit(terms);
    BeforeAllLookups(terms);
  }

  /** No lookups are spent inside other records. */
  ghost predicate Flat(w: World) {
    forall k, v :: w.nested(k, v) == 0
  }

  /** Within the limit an evaluation goes as without one. */
  lemma {:induction false} LimitNotReached(w: World, limit: nat, terms: seq<Term>)
    requires Flat(w) && MechanismLookups(BeforeAll(terms)) <= limit
    ensures var p := Evaluated(w, None, terms);
            Evaluated(w, Some(limit), terms) == p && (p.Running? ==> p.used == MechanismLookups(terms))
  {
    if terms != [] {
      var n := |terms| - 1;
      var front, t := terms[..n], terms[n];
      assert terms == front + [t];
      BeforeAllNext(front, t);
      assert MechanismLookups(front + [t]) == MechanismLookups(front) +
        (if IsMechanism(t.kind) && CostsLookup(t.kind) then 1 else 0);
      LimitNotReached(w, limit, front);
      if Count(front, All) > 0 {
        AllDecides(w, None, front);
      }
    }
  }

  /** A sender no mechanism but "all" matches. */
  const NOBODY := World((k: Kind, v: string) => NoMatch, (k: Kind, v: string) => 0, (v: string) => Pass)

  /** How the evaluation for nobody ends. */
  predicate EndsForNobody(limit: Limit, terms: seq<Term>, p: Progress) {
    if Exceeds(limit, MechanismLookups(BeforeAll(terms))) then p == Decided(PermError)
    else if Count(terms, All) > 0 then p.Decided? && p.verdict != PermError
    else p == Running(MechanismLookups(terms))
  }

  lemma {:induction false} NobodyEvaluated(limit: Limit, terms: seq<Term>)
    ensures EndsForNobody(limit, terms, Evaluated(NOBODY, limit, terms))
  {
    if terms != [] {
      var n := |terms| - 1;
      var front, t := terms[..n], terms[n];
      assert terms == front + [t];
      BeforeAllNext(front, t);
      SnocCount(front, t, All);
      assert MechanismLookups(front + [t]) == MechanismLookups(front) +
        (if IsMechanism(t.kind) && CostsLookup(t.kind) then 1 else 0);
      NobodyEvaluated(limit, front);
    }
  }

  /** The limit of ten makes no difference to any sender whose lookups are all on the record itself
      if and only if at most ten lookup terms can be reached: terms after "all" do not matter,
      though the panel counts them. */
  lemma LimitFreeExactly(terms: seq<Term>)
    requires Count(terms, Redirect) <= 1 && Count(terms, Exp) <= 1
    ensures (forall w: World | Flat(w) :: CheckHost(w, STANDARD, terms) == CheckHost(w, None, terms))
            <==> Reachable(terms) <= LOOKUP_LIMIT
  {
    ValueIffCount(terms, Redirect);
    if Reachable(terms) <= LOOKUP_LIMIT {
      forall w: World | Flat(w) ensures CheckHost(w, STANDARD, terms) == CheckHost(w, None, terms) {
        LimitNotReached(w, LOOKUP_LIMIT, terms);
        if Count(terms, All) > 0 {
          AllDecides(w, None, terms);
        }
      }
    } else {
      NobodyEvaluated(STANDARD, terms);
      NobodyEvaluated(None, terms);
      assert Flat(NOBODY);
      assert CheckHost(NOBODY, STANDARD, terms) == PermError;
      assert CheckHost(NOBODY, None, terms) != PermError;
    }
  }

  /** So a record the panel does not warn about never runs into the limit by itself. */
  lemma CountedLimitIsSound(w: World, terms: seq<Term>)
    requires Count(terms, Redirect) <= 1 && Count(terms, Exp) <= 1 && Flat(w)
    requires Lookups(terms) <= LOOKUP_LIMIT
    ensures CheckHost(w, STANDARD, terms) == CheckHost(w, None, terms)
  {
    hide CheckHost, Reachable, Lookups;
    ReachableCounted(terms);
    LimitFreeExactly(terms);
  }

  // ---- concrete records --------------------------------------------------------------------

  const EXP_A := Term(None, Exp, "a" + "." + "example", "exp=" + ("a" + "." + "example"), None)
  const EXP_B := Term(None, Exp, "b" + "." + "example", "exp=" + ("b" + "." + "example"), None)
  const MINUS_ALL := Term(Some('-'), All, "", "-all", None)

  lemma TwoLabels(a: string, b: string)
    requires IsLabel(a, true) && IsLabel(b, false)
    ensures ValidDomain(a + "." + b)
  {
    var labels, d := [a, b], a + "." + b;
    JoinTwo(a, b, ".");
    assert '.' !in a && '.' !in b;
    assert d[|d| - 1] == b[|b| - 1] && b[|b| - 1] in b;
    assert TrimRight(d, IsDot) == d;
    hide Split, Join, IsLabel, TrimRight;
    SplitJoin(labels, '.');
  }

  lemma ExampleLabels(c: char)
    requires 'a' <= c <= 'z'
    ensures IsLabel([c], true) && IsLabel("example", false)
  {
  }

  lemma JoinTwo(a: string, b: string, glue: string)
    ensures Join([a, b], glue) == a + glue + b
  {
    assert [a, b][1..] == [b] && Join([b], glue) == b;
  }

  lemma ExpParses(v: Validators, d: string)
    requires ValidDomain(d)
    ensures ParseTerm(v, "exp=" + d) == Term(None, Exp, d, "exp=" + d, None)
  {
    var t := Term(None, Exp, d, "exp=" + d, None);
    assert Validate(v, Exp, d) == None by { assert d != ""; }
    NotAmbiguous(Exp, d);
    hide ValidDomain, ParseTerm, Ambiguous, Validate;
    RenderReparsesExactly(v, t);
    assert Name(Exp) + "=" + d == "exp=" + d;
  }

  lemma NotAmbiguous(k: Kind, value: string)
    requires !TakesPrefix(k)
    ensures !Ambiguous(k, value)
  {
  }

  lemma AllParses(v: Validators)
    ensures ParseTerm(v, "-all") == MINUS_ALL
  {
    hide ParseTerm, Ambiguous;
    NotAmbiguous(All, "");
    RenderReparsesExactly(v, MINUS_ALL);
    assert Sign(Some('-')) + "all" == "-all";
  }

  lemma PlainText(s: string)
    requires s != "" && forall i :: 0 <= i < |s| ==> '-' <= s[i] <= 'z'
    ensures IsWord(s) && '"' !in s
  {
  }

  /** An error-free term as its own spelling parses. */
  ghost predicate IsSpelled(v: Validators, t: Term) {
    t.error.None? && IsWord(t.raw) && '"' !in t.raw && ParseTerm(v, t.raw) == t && !t.kind.Redirect?
  }

  /** A text made of the spellings of error-free terms is a valid record with those terms. */
  lemma SpelledRecord(v: Validators, terms: seq<Term>)
    requires forall i :: 0 <= i < |terms| ==> IsSpelled(v, terms[i])
    ensures var r := Parsed(v, Join([VERSION] + Spellings(terms), " ")); r.Valid() && r.terms == terms
  {
    NoRedirectCounted(terms);
    NoQuoteJoined([VERSION] + Spellings(terms));
    hide ParseTerm, IsWord, Parsed, Join, Count, FindQuoted;
    BuiltParses(v, Spellings(terms), terms);
    assert Terms(v, Spellings(terms)) == terms;
  }

  function Spellings(terms: seq<Term>): (r: seq<string>)
    ensures |r| == |terms| && forall i :: 0 <= i < |terms| ==> r[i] == terms[i].raw
  {
    seq(|terms|, i requires 0 <= i < |terms| => terms[i].raw)
  }

  lemma Spelled(v: Validators)
    ensures IsSpelled(v, EXP_A) && IsSpelled(v, EXP_B) && IsSpelled(v, MINUS_ALL)
  {
    PlainText(EXP_A.raw);
    PlainText(EXP_B.raw);
    PlainText("-all");
    ExampleLabels('a');
    ExampleLabels('b');
    hide IsWord, ParseTerm, IsLabel, ValidDomain;
    TwoLabels("a", "example");
    TwoLabels("b", "example");
    ExpParses(v, EXP_A.value);
    ExpParses(v, EXP_B.value);
    AllParses(v);
  }

  lemma {:induction false} NoRedirectCounted(terms: seq<Term>)
    requires forall i :: 0 <= i < |terms| ==> !terms[i].kind.Redirect?
    ensures Count(terms, Redirect) == 0
  {
    if terms != [] {
      NoRedirectCounted(terms[..|terms| - 1]);
    }
  }

  /** "v=spf1 exp=a.example -all exp=b.example" */
  const REPEATED_EXP := VERSION + " " + (EXP_A.raw + " " + (MINUS_ALL.raw + " " + EXP_B.raw))

  /** "v=spf1 -all exp=a.example" */
  const LATE_EXP := VERSION + " " + (MINUS_ALL.raw + " " + EXP_A.raw)

  lemma ThreeTerms(v: Validators, a: Term, b: Term, c: Term)
    requires IsSpelled(v, a) && IsSpelled(v, b) && IsSpelled(v, c)
    ensures var r := Parsed(v, VERSION + " " + (a.raw + " " + (b.raw + " " + c.raw)));
            r.Valid() && r.terms == [a, b, c]
  {
    hide IsSpelled, Parsed, Join;
    SpelledRecord(v, [a, b, c]);
    assert Spellings([a, b, c]) == [a.raw, b.raw, c.raw];
    JoinTwo(b.raw, c.raw, " ");
    JoinCons(a.raw, [b.raw, c.raw], " ");
    JoinCons(VERSION, [a.raw, b.raw, c.raw], " ");
    assert [a.raw] + [b.raw, c.raw] == [a.raw, b.raw, c.raw];
  }

  lemma TwoTerms(v: Validators, a: Term, b: Term)
    requires IsSpelled(v, a) && IsSpelled(v, b)
    ensures var r := Parsed(v, VERSION + " " + (a.raw + " " + b.raw));
            r.Valid() && r.terms == [a, b]
  {
    hide IsSpelled, Parsed, Join;
    SpelledRecord(v, [a, b]);
    assert Spellings([a, b]) == [a.raw, b.raw];
    JoinTwo(a.raw, b.raw, " ");
    JoinCons(VERSION, [a.raw, b.raw], " ");
  }

  lemma NothingThere(w: World)
    ensures Evaluated(w, STANDARD, []) == Running(0) && FirstValue([], Exp) == None
    ensures forall k :: Count([], k) == 0
  {
  }

  lemma RepeatedExpTerms()
    ensures var terms := [EXP_A, MINUS_ALL, EXP_B];
            && Late(terms, 2) && Count(terms, Exp) == 2
            && BeforeAll(terms) == [EXP_A] && Count([EXP_A], Exp) == 1
  {
    var one, two := [EXP_A], [EXP_A, MINUS_ALL];
    var three := [EXP_A, MINUS_ALL, EXP_B];
    assert one == [] + [EXP_A] && two == one + [MINUS_ALL] && three == two + [EXP_B] && three[..2] == two;
    NothingThere(ANYBODY);
    hide Count, BeforeAll;
    CountThree(All);
    CountThree(Exp);
    BeforeAllNext(one, MINUS_ALL);
    BeforeAllNext(two, EXP_B);
  }

  lemma CountThree(k: Kind)
    ensures Count([EXP_A], k) == if k.Exp? then 1 else 0
    ensures Count([EXP_A, MINUS_ALL], k) == if k.Exp? || k.All? then 1 else 0
    ensures Count([EXP_A, MINUS_ALL, EXP_B], k) == if k.Exp? then 2 else if k.All? then 1 else 0
  {
    NothingThere(ANYBODY);
    hide Count;
    SnocCount([], EXP_A, k);
    SnocCount([EXP_A], MINUS_ALL, k);
    SnocCount([EXP_A, MINUS_ALL], EXP_B, k);
    assert [] + [EXP_A] == [EXP_A] && [EXP_A] + [MINUS_ALL] == [EXP_A, MINUS_ALL]
        && [EXP_A, MINUS_ALL] + [EXP_B] == [EXP_A, MINUS_ALL, EXP_B];
  }

  lemma MinusAllFails()
    ensures CheckHost(ANYBODY, STANDARD, [EXP_A, MINUS_ALL]) == Fail
  {
    NothingThere(ANYBODY);
    CountThree(Exp);
    CountThree(Redirect);
    hide Count, Evaluated;
    SnocEvaluated(ANYBODY, STANDARD, [], EXP_A);
    SnocEvaluated(ANYBODY, STANDARD, [EXP_A], MINUS_ALL);
    assert [] + [EXP_A] == [EXP_A] && [EXP_A] + [MINUS_ALL] == [EXP_A, MINUS_ALL];
  }

  /** The panel accepts "v=spf1 exp=a.example -all exp=b.example"; without the term it calls never
      evaluated, the verdict changes from a permanent error to fail. */
  lemma RepeatedExpBroken(v: Validators)
    ensures var r := Parsed(v, REPEATED_EXP);
            && r.Valid() && r.terms == [EXP_A, MINUS_ALL, EXP_B] && Late(r.terms, 2)
            && CheckHost(ANYBODY, STANDARD, r.terms) == PermError
            && CheckHost(ANYBODY, STANDARD, r.terms[..2]) == Fail
  {
    var terms := [EXP_A, MINUS_ALL, EXP_B];
    Spelled(v);
    ThreeTerms(v, EXP_A, MINUS_ALL, EXP_B);
    RepeatedExpTerms();
    MinusAllFails();
    hide IsSpelled, Parsed, BeforeAll, Evaluated, Count, Late;
    assert terms[..2] == [EXP_A, MINUS_ALL];
  }

  lemma LateExpTerms()
    ensures var terms := [MINUS_ALL, EXP_A];
            && Late(terms, 1) && Count(terms, Exp) == 1 && Count(terms, Redirect) == 0
            && FirstValue(terms, Exp) == Some(EXP_A.value) && FirstValue(BeforeAll(terms), Exp) == None
            && Evaluated(NOBODY, STANDARD, terms) == Decided(Fail)
  {
    NothingThere(NOBODY);
    var one, two := [MINUS_ALL], [MINUS_ALL, EXP_A];
    assert one == [] + [MINUS_ALL] && two == one + [EXP_A] && two[..1] == one;
    assert BeforeAll([]) == [];
    hide Count, Evaluated, FirstValue, BeforeAll;
    BeforeAllNext([], MINUS_ALL);
    BeforeAllNext(one, EXP_A);
    SnocCount([], MINUS_ALL, Redirect);
    SnocCount(one, EXP_A, Redirect);
    SnocCount([], MINUS_ALL, All);
    SnocCount([], MINUS_ALL, Exp);
    SnocCount(one, EXP_A, Exp);
    SnocValue([], MINUS_ALL, Exp);
    SnocValue(one, EXP_A, Exp);
    SnocEvaluated(NOBODY, STANDARD, [], MINUS_ALL);
    SnocEvaluated(NOBODY, STANDARD, one, EXP_A);
  }

  /** The panel accepts "v=spf1 -all exp=a.example"; without the term it calls never evaluated, a
      receiver that fails a sender has no explanation to show. */
  lemma LateExpBroken(v: Validators)
    ensures var r := Parsed(v, LATE_EXP);
            && r.Valid() && r.terms == [MINUS_ALL, EXP_A] && Late(r.terms, 1)
            && Explanation(NOBODY, STANDARD, r.terms) == Some(EXP_A.value)
            && Explanation(NOBODY, STANDARD, Cleaned(r.terms)) == None
  {
    var terms := [MINUS_ALL, EXP_A];
    Spelled(v);
    TwoTerms(v, MINUS_ALL, EXP_A);
    LateExpTerms();
    hide IsSpelled, Parsed, Count, Evaluated, Cleaned, Late, FirstValue;
    CleanedExp(terms);
  }

  const TERM_A := Term(None, A, "", "a", None)

  /** "-all" and then `n` times "a". */
  function AllThenLookups(n: nat): seq<Term> {
    if n == 0 then [MINUS_ALL] else AllThenLookups(n - 1) + [TERM_A]
  }

  lemma BareA(v: Validators)
    ensures Validate(v, A, "") == None && !Ambiguous(A, "")
  {
    assert Find("", '/') == 0;
  }

  lemma TermAParses(v: Validators)
    ensures IsSpelled(v, TERM_A) && IsSpelled(v, MINUS_ALL)
  {
    PlainText("a");
    PlainText("-all");
    AllParses(v);
    NotAmbiguous(All, "");
    BareA(v);
    hide ParseTerm, IsWord, Validate, Ambiguous;
    RenderReparsesExactly(v, TERM_A);
  }

  /** Well-spelled terms with `n` lookups, every one of them after an "all" in front. */
  ghost predicate LateLookups(v: Validators, terms: seq<Term>, n: nat) {
    && (forall i :: 0 <= i < |terms| ==> IsSpelled(v, terms[i]))
    && Lookups(terms) == n && Count(terms, All) == 1 && Count(terms, Redirect) == 0 && BeforeAll(terms) == []
  }

  lemma LookupsNext(v: Validators, front: seq<Term>, n: nat)
    requires LateLookups(v, front, n) && IsSpelled(v, TERM_A)
    ensures LateLookups(v, front + [TERM_A], n + 1)
  {
    hide IsSpelled, Lookups, Count, BeforeAll;
    SnocLookups(front, TERM_A);
    SnocCount(front, TERM_A, All);
    SnocCount(front, TERM_A, Redirect);
    BeforeAllNext(front, TERM_A);
  }

  lemma {:induction false} LookupsAfterAll(v: Validators, n: nat)
    ensures LateLookups(v, AllThenLookups(n), n)
  {
    TermAParses(v);
    hide IsSpelled;
    if n == 0 {
      OnlyAll();
      hide Lookups, Count, BeforeAll;
    } else {
      hide LateLookups;
      LookupsAfterAll(v, n - 1);
      LookupsNext(v, AllThenLookups(n - 1), n - 1);
    }
  }

  lemma OnlyAll()
    ensures var terms := [MINUS_ALL];
            Lookups(terms) == 0 && Count(terms, All) == 1 && Count(terms, Redirect) == 0 && BeforeAll(terms) == []
  {
    NothingThere(NOBODY);
    assert [MINUS_ALL] == [] + [MINUS_ALL] && BeforeAll([]) == [] && Lookups([]) == 0;
    SnocLookups([], MINUS_ALL);
    hide Count, BeforeAll, Lookups;
    SnocCount([], MINUS_ALL, All);
    SnocCount([], MINUS_ALL, Redirect);
    BeforeAllNext([], MINUS_ALL);
  }

  lemma SnocLookups(terms: seq<Term>, t: Term)
    ensures Lookups(terms + [t]) == Lookups(terms) + (if CostsLookup(t.kind) then 1 else 0)
  {
    assert (terms + [t])[..|terms|] == terms;
  }

  /** The panel warns about "v=spf1 -all a a a a a a a a a a a": eleven lookup terms, of which a
      receiver reaches none. */
  lemma LateLookupsBroken(v: Validators)
    ensures var terms := AllThenLookups(11);
            var r := Parsed(v, Join([VERSION] + Spellings(terms), " "));
            && r.Valid() && r.terms == terms && TooManyLookups(11) in r.warnings
            && Reachable(terms) == 0
  {
    var terms := AllThenLookups(11);
    LookupsAfterAll(v, 11);
    hide IsSpelled, Lookups, Count, BeforeAll, Join, AllThenLookups;
    assert LateLookups(v, terms, 11);
    NothingThere(NOBODY);
    SpelledRecord(v, terms);
    hide Parsed;
    var r := Parsed(v, Join([VERSION] + Spellings(terms), " "));
    WarnsOfLookups(v, Join([VERSION] + Spellings(terms), " "));
    assert MechanismLookups([]) == 0;
  }

  lemma WarnsOfLookups(v: Validators, content: string)
    requires Parsed(v, content).Valid() && Lookups(Parsed(v, content).terms) > LOOKUP_LIMIT
    ensures TooManyLookups(Lookups(Parsed(v, content).terms)) in Parsed(v, content).warnings
  {
    hide ParseTerm, Tokens, StripTxt, Lower, LateWarnings, TermErrors, Lookups, Count;
  }

  /** "exists:%{i}" with a quoted "x" behind it. */
  const QUOTING := Term(None, Exists, "%{i}" + "\"x\"", "exists:" + ("%{i}" + "\"x\""), None)

  lemma {:induction false} QuotedFound(front: string, s: string)
    requires '"' !in front
    ensures FindQuoted(front + s) == FindQuoted(s)
  {
    if front == "" {
      assert front + s == s;
    } else {
      assert (front + s)[1..] == front[1..] + s && front[0] in front;
      QuotedFound(front[1..], s);
    }
  }

  lemma QuotedAtOnce(rest: string)
    ensures FindQuoted("\"x\"" + rest) != []
  {
    var s := "\"x\"" + rest;
    assert s[1..] == "x\"" + rest && s[1..][1..] == "\"" + rest;
    assert BodyLength("\"" + rest) == Some(0);
    hide FindQuoted, UnescapeAll;
    FindStep(s);
  }

  lemma FindStep(s: string)
    requires s != "" && s[0] == '"' && BodyLength(s[1..]).Some?
    ensures FindQuoted(s) != []
  {
  }

  lemma MacroParses(v: Validators, d: string)
    requires d != "" && '%' in d && |d| <= 253 && d[|d| - 1] != '.'
    ensures ParseTerm(v, "exists:" + d) == Term(None, Exists, d, "exists:" + d, None)
    ensures RenderTerm(Term(None, Exists, d, "exists:" + d, None)) == "exists:" + d
  {
    var t := Term(None, Exists, d, "exists:" + d, None);
    assert TrimRight(d, IsDot) == d;
    assert Validate(v, Exists, d) == None;
    NotAmbiguous(Exists, d);
    hide ParseTerm, Ambiguous, Validate;
    RenderReparsesExactly(v, t);
    assert "exists" + ":" == "exists:" && "" + ("exists:" + d) == "exists:" + d;
    assert "exists" + ":" + d == "exists:" + d;
  }

  lemma MacroWord(d: string)
    requires forall i :: 0 <= i < |d| ==> '!' <= d[i] <= '~'
    ensures IsWord("exists:" + d)
  {
    assert forall i :: 0 <= i < |"exists:"| ==> '!' <= "exists:"[i] <= '~';
  }

  /** The panel accepts "v=spf1 exists:%{i}"x" -all" in its stored, escaped form; the record built
      from its terms does not parse back. */
  lemma QuotingRecordBroken(v: Validators)
    ensures var text := VERSION + " " + (QUOTING.raw + " " + MINUS_ALL.raw);
            var r, again := Parsed(v, QuoteTxt(text)), Parsed(v, text);
            && r.Valid() && r.terms == [QUOTING, MINUS_ALL] && BuildSpf(r.terms) == text
            && !(again.Valid() && SameTerms(again.terms, r.terms))
  {
    QuotingStands(v);
    MinusAllStands(v);
    QuotingFound(" " + MINUS_ALL.raw);
    hide StandsAsWritten, FindQuoted, Parsed, QuoteTxt, BuildSpf;
    assert QUOTING.raw + " " + MINUS_ALL.raw == QUOTING.raw + (" " + MINUS_ALL.raw);
    TwoWrittenTerms(v, QUOTING, MINUS_ALL);
  }

  /** An error-free term that is written as the panel renders it. */
  ghost predicate StandsAsWritten(v: Validators, t: Term) {
    && t.error.None? && !t.kind.Redirect?
    && IsWord(t.raw) && ParseTerm(v, t.raw) == t && RenderTerm(t) == t.raw
  }

  lemma MacroStands(v: Validators, d: string)
    requires d != "" && '%' in d && |d| <= 253 && d[|d| - 1] != '.' && forall i :: 0 <= i < |d| ==> '!' <= d[i] <= '~'
    ensures StandsAsWritten(v, Term(None, Exists, d, "exists:" + d, None))
  {
    hide ParseTerm, IsWord, RenderTerm;
    MacroParses(v, d);
    MacroWord(d);
  }

  lemma QuotingStands(v: Validators)
    ensures StandsAsWritten(v, QUOTING)
  {
    hide StandsAsWritten;
    var d := QUOTING.value;
    assert d[0] == '%' && '%' in d && |d| == 7 && d[6] == '"';
    assert forall i :: 0 <= i < 7 ==> '!' <= d[i] <= '~';
    MacroStands(v, d);
  }

  lemma MinusAllStands(v: Validators)
    ensures StandsAsWritten(v, MINUS_ALL)
  {
    AllParses(v);
    PlainText("-all");
    hide ParseTerm, IsWord;
    assert Sign(Some('-')) + "all" == "-all";
  }

  lemma WrittenText(v: Validators, a: Term, b: Term)
    requires StandsAsWritten(v, a) && StandsAsWritten(v, b)
    ensures BuildSpf([a, b]) == VERSION + " " + (a.raw + " " + b.raw) == Join([VERSION] + [a.raw, b.raw], " ")
  {
    JoinTwo(a.raw, b.raw, " ");
    JoinCons(VERSION, [a.raw, b.raw], " ");
    hide ParseTerm, RenderTerm, IsWord, Join;
    assert Rendered([a, b]) == [a.raw, b.raw];
  }

  lemma WrittenParses(v: Validators, a: Term, b: Term)
    requires StandsAsWritten(v, a) && StandsAsWritten(v, b)
    ensures var r := Parsed(v, QuoteTxt(Join([VERSION] + [a.raw, b.raw], " "))); r.Valid() && r.terms == [a, b]
  {
    var parts := [a.raw, b.raw];
    NoRedirectCounted([a, b]);
    hide ParseTerm, RenderTerm, IsWord, Join, Count, Parsed, QuoteTxt, StripTxt, Tokens;
    assert Terms(v, parts) == [a, b];
    QuotedPieces(parts);
    PiecesParse(v, QuoteTxt(Join([VERSION] + parts, " ")), parts);
  }

  lemma TwoWrittenTerms(v: Validators, a: Term, b: Term)
    requires StandsAsWritten(v, a) && StandsAsWritten(v, b)
    requires FindQuoted(VERSION + " " + (a.raw + " " + b.raw)) != []
    ensures var text := VERSION + " " + (a.raw + " " + b.raw);
            var r, again := Parsed(v, QuoteTxt(text)), Parsed(v, text);
            && r.Valid() && r.terms == [a, b] && BuildSpf(r.terms) == text
            && !(again.Valid() && SameTerms(again.terms, r.terms))
  {
    hide StandsAsWritten, Join, Parsed, QuoteTxt, FindQuoted, BuildSpf, SameTerms;
    WrittenText(v, a, b);
    WrittenParses(v, a, b);
    RecordRoundTripExactly(v, QuoteTxt(BuildSpf([a, b])));
  }

  lemma QuotingFound(rest: string)
    ensures FindQuoted(VERSION + " " + (QUOTING.raw + rest)) != []
  {
    var front := VERSION + " " + "exists:" + "%{i}";
    assert VERSION + " " + (QUOTING.raw + rest) == front + ("\"x\"" + rest);
    NoQuoteInFront();
    QuotedAtOnce(rest);
    hide FindQuoted;
    QuotedFound(front, "\"x\"" + rest);
  }

  lemma NoQuoteInFront()
    ensures '"' !in VERSION + " " + "exists:" + "%{i}"
  {
    assert '"' !in VERSION && '"' !in " " && '"' !in "exists:" && '"' !in "%{i}";
  }
}
