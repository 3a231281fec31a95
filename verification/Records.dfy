/** Record editing (app/mojodns/routers/zones.py): read-modify-write edits on the rrsets of a
    zone, and their agreement with plain insertions and removals on a flat set of records. */
module Records {
  import opened Wrappers
  import opened Text
  import opened Txt
  import opened Spf
  import opened SpfRecord

  datatype Rec = Rec(content: string, disabled: bool)

  datatype RRset = RRset(ttl: nat, records: seq<Rec>)

  /** PowerDNS's rrsets of one zone, by owner name and type. */
  type RRsets = map<(string, string), RRset>

  // ---- lists of records --------------------------------------------------------------------

  /** The disabled flag of the record with this content, if there is one. */
  function FindRec(recs: seq<Rec>, content: string): Option<bool> {
    if recs == [] then None
    else if recs[0].content == content then Some(recs[0].disabled)
    else FindRec(recs[1..], content)
  }

  /** The records whose content differs from the given one. */
  function Removing(recs: seq<Rec>, content: string): seq<Rec> {
    if recs == [] then []
    else (if recs[0].content != content then [recs[0]] else []) + Removing(recs[1..], content)
  }

  /** Append an enabled record unless its content is there. */
  function Adding(recs: seq<Rec>, content: string): seq<Rec> {
    if FindRec(recs, content).Some? then recs else recs + [Rec(content, false)]
  }

  predicate Distinct(recs: seq<Rec>) {
    forall i, j :: 0 <= i < j < |recs| ==> recs[i].content != recs[j].content
  }

  lemma {:induction false} FindIsIn(recs: seq<Rec>, content: string)
    ensures FindRec(recs, content).Some? <==> exists i :: 0 <= i < |recs| && recs[i].content == content
  {
    if recs != [] {
      FindIsIn(recs[1..], content);
      if i :| 0 <= i < |recs| && recs[i].content == content {
        assert i > 0 ==> recs[1..][i - 1] == recs[i];
      }
      if i :| 0 <= i < |recs[1..]| && recs[1..][i].content == content {
        assert recs[i + 1] == recs[1..][i];
      }
    }
  }

  lemma {:induction false} FindConcat(a: seq<Rec>, b: seq<Rec>, content: string)
    ensures FindRec(a + b, content) == if FindRec(a, content).Some? then FindRec(a, content) else FindRec(b, content)
  {
    if a == [] {
      assert a + b == b;
    } else {
      assert (a + b)[1..] == a[1..] + b;
      FindConcat(a[1..], b, content);
    }
  }

  lemma RemovingNext(recs: seq<Rec>, i: nat, content: string)
    requires i < |recs|
    ensures Removing(recs[i..], content) ==
            (if recs[i].content != content then [recs[i]] else []) + Removing(recs[i + 1..], content)
  {
    assert recs[i..][1..] == recs[i + 1..];
  }

  lemma {:induction false} FindRemoving(recs: seq<Rec>, content: string, other: string)
    ensures FindRec(Removing(recs, content), other) == if other == content then None else FindRec(recs, other)
  {
    if recs != [] {
      FindRemoving(recs[1..], content, other);
      var head := if recs[0].content != content then [recs[0]] else [];
      FindConcat(head, Removing(recs[1..], content), other);
      assert FindRec([], other) == None && [recs[0]][1..] == [];
    }
  }

  lemma FindAdding(recs: seq<Rec>, content: string, other: string)
    ensures FindRec(Adding(recs, content), other) ==
            if other == content && FindRec(recs, content).None? then Some(false) else FindRec(recs, other)
  {
    FindConcat(recs, [Rec(content, false)], other);
    assert [Rec(content, false)][1..] == [];
  }

  lemma {:induction false} RemovingMembers(recs: seq<Rec>, content: string)
    ensures forall r :: r in Removing(recs, content) ==> r in recs
  {
    if recs != [] {
      RemovingMembers(recs[1..], content);
    }
  }

  lemma {:induction false} RemovingDistinct(recs: seq<Rec>, content: string)
    requires Distinct(recs)
    ensures Distinct(Removing(recs, content))
  {
    if recs != [] {
      var rest := Removing(recs[1..], content);
      RemovingDistinct(recs[1..], content);
      RemovingMembers(recs[1..], content);
      forall j | 0 <= j < |rest| ensures rest[j].content != recs[0].content {
        assert rest[j] in rest;
        var k :| 0 <= k < |recs[1..]| && recs[1..][k] == rest[j];
      }
    }
  }

  lemma AddingDistinct(recs: seq<Rec>, content: string)
    requires Distinct(recs)
    ensures Distinct(Adding(recs, content)) && Adding(recs, content) != []
  {
    FindIsIn(recs, content);
    assert FindRec([], content) == None;
  }

  // ---- edits as the handlers make them -----------------------------------------------------

  /** `_rrset_contents`: an exact match on the name as given. */
  function Contents(rr: RRsets, name: string, rtype: string): seq<Rec> {
    if (name, rtype) in rr then rr[(name, rtype)].records else []
  }

  /** `replace_rrset`: the name is made canonical; an empty list deletes the rrset. */
  function Replaced(rr: RRsets, name: string, rtype: string, ttl: nat, recs: seq<Rec>): RRsets {
    if recs == [] then rr - {(Canonical(name), rtype)} else rr[(Canonical(name), rtype) := RRset(ttl, recs)]
  }

  function TtlOr(rr: RRsets, name: string, rtype: string, default: nat): nat {
    if (name, rtype) in rr && rr[(name, rtype)].ttl != 0 then rr[(name, rtype)].ttl else default
  }

  const DEFAULT_TTL: nat := 3600

  /** The rrsets without one record; a stored TTL of 0 gives way to the default. */
  function TakenOut(rr: RRsets, name: string, rtype: string, content: string, default: nat): RRsets {
    Replaced(rr, name, rtype, TtlOr(rr, name, rtype, default), Removing(Contents(rr, name, rtype), content))
  }

  /** Edits with the names and contents the forms stand for: `name` of a new record is what
      `fqdn` makes of the host field, its content what `build_content` makes of the data. */
  datatype Edit =
    | Create(name: string, rtype: string, ttl: nat, content: string)
    | Update(origName: string, rtype: string, origContent: string, name: string, content: string, ttl: nat)
    | Delete(name: string, rtype: string, content: string)
    | SaveSpf(name: string, origContent: string, content: string, ttl: nat)

  function Apply(rr: RRsets, e: Edit): RRsets {
    match e
    case Create(name, rtype, ttl, content) =>
      Replaced(rr, name, rtype, ttl, Adding(Contents(rr, name, rtype), content))
    case Update(origName, rtype, origContent, name, content, ttl) =>
      if name == Canonical(origName) then
        Replaced(rr, origName, rtype, ttl, Adding(Removing(Contents(rr, origName, rtype), origContent), content))
      else
        var without := TakenOut(rr, origName, rtype, origContent, ttl);
        Replaced(without, name, rtype, ttl, Adding(Contents(without, name, rtype), content))
    case Delete(name, rtype, content) =>
      TakenOut(rr, name, rtype, content, DEFAULT_TTL)
    case SaveSpf(name, origContent, content, ttl) =>
      var existing := Contents(rr, name, "TXT");
      var remaining := if origContent != "" then Removing(existing, origContent) else existing;
      Replaced(rr, name, "TXT", ttl, Adding(remaining, content))
  }

  /** A zone's rrsets on the PowerDNS server and the handlers that edit them. */
  class ZoneRecords {
    var rrsets: RRsets

    constructor (rrsets: RRsets)
      ensures this.rrsets == rrsets
    {
      this.rrsets := rrsets;
    }

    method ReplaceRrset(name: string, rtype: string, ttl: nat, recs: seq<Rec>)
      modifies this
      ensures rrsets == Replaced(old(rrsets), name, rtype, ttl, recs)
    {
      hide Canonical;
      var key := (Canonical(name), rtype);
      rrsets := if recs == [] then rrsets - {key} else rrsets[key := RRset(ttl, recs)];
    }

    /** The records without one content, as the handlers rebuild the list. */
    method Rebuild(recs: seq<Rec>, content: string) returns (remaining: seq<Rec>)
      ensures remaining == Removing(recs, content)
    {
      remaining := [];
      NothingToRemove(content);
      hide Removing;
      assert recs[0..] == recs;
      for i := 0 to |recs|
        invariant Removing(recs, content) == remaining + Removing(recs[i..], content)
      {
        RemovingNext(recs, i, content);
        if recs[i].content != content {
          remaining := remaining + [recs[i]];
        }
      }
      assert recs[|recs|..] == [];
    }

    method RecordCreate(name: string, rtype: string, ttl: nat, content: string)
      modifies this
      ensures rrsets == Apply(old(rrsets), Create(name, rtype, ttl, content))
    {
      hide Canonical;
      var existing := Contents(rrsets, name, rtype);
      if FindRec(existing, content).None? {
        existing := existing + [Rec(content, false)];
      }
      ReplaceRrset(name, rtype, ttl, existing);
    }

    /** Only the first `writes` write calls take effect; a later one fails. */
    method RecordUpdate(
      origName: string, rtype: string, origContent: string, name: string, content: string, ttl: nat, writes: nat)
      modifies this
      ensures rrsets ==
              if writes == 0 then old(rrsets)
              else if writes == 1 && name != Canonical(origName) then
                TakenOut(old(rrsets), origName, rtype, origContent, ttl)
              else Apply(old(rrsets), Update(origName, rtype, origContent, name, content, ttl))
    {
      hide Canonical;
      if writes == 0 { return; }
      var oldTtl := TtlOr(rrsets, origName, rtype, ttl);
      var remaining := Rebuild(Contents(rrsets, origName, rtype), origContent);
      if name == Canonical(origName) {
        if FindRec(remaining, content).None? {
          remaining := remaining + [Rec(content, false)];
        }
        ReplaceRrset(origName, rtype, ttl, remaining);
      } else {
        ReplaceRrset(origName, rtype, oldTtl, remaining);
        if writes == 1 { return; }
        var target := Contents(rrsets, name, rtype);
        if FindRec(target, content).None? {
          target := target + [Rec(content, false)];
        }
        ReplaceRrset(name, rtype, ttl, target);
      }
    }

    method RecordDelete(name: string, rtype: string, content: string)
      modifies this
      ensures rrsets == Apply(old(rrsets), Delete(name, rtype, content))
    {
      hide Canonical;
      var ttl := TtlOr(rrsets, name, rtype, 3600);
      var remaining := Rebuild(Contents(rrsets, name, rtype), content);
      ReplaceRrset(name, rtype, ttl, remaining);
    }

    /** A record with errors is not saved. */
    method SpfSave(v: Validators, name: string, origContent: string, content: string, ttl: nat) returns (saved: bool)
      modifies this
      ensures saved == Parsed(v, content).Valid()
      ensures rrsets ==
              if saved then
                Apply(old(rrsets), SaveSpf(Canonical(name), origContent, QuoteTxt(Parsed(v, content).raw), ttl))
              else old(rrsets)
    {
      hide Canonical, Parsed, QuoteTxt;
      var parsed := ParseSpf(v, content);
      if !parsed.Valid() { return false; }
      var target, quoted := Canonical(name), QuoteTxt(parsed.raw);
      var remaining := Contents(rrsets, target, "TXT");
      if origContent != "" {
        remaining := Rebuild(remaining, origContent);
      }
      if FindRec(remaining, quoted).None? {
        remaining := remaining + [Rec(quoted, false)];
      }
      ReplaceRrset(target, "TXT", ttl, remaining);
      saved := true;
    }
  }

  // ---- the flat set of records -------------------------------------------------------------

  type FlatKey = (string, string, string)

  /** Every record by name, type and content, with its disabled flag. */
  type Flat = map<FlatKey, bool>

  function Lookup(rr: RRsets, k: FlatKey): Option<bool> {
    FindRec(Contents(rr, k.0, k.1), k.2)
  }

  function FlatKeys(rr: RRsets): set<FlatKey> {
    set key, i | key in rr && 0 <= i < |rr[key].records| :: (key.0, key.1, rr[key].records[i].content)
  }

  lemma FlatKeysAre(rr: RRsets, k: FlatKey)
    ensures k in FlatKeys(rr) <==> Lookup(rr, k).Some?
  {
    FindIsIn(Contents(rr, k.0, k.1), k.2);
    if Lookup(rr, k).Some? {
      var i :| 0 <= i < |Contents(rr, k.0, k.1)| && Contents(rr, k.0, k.1)[i].content == k.2;
      var key := (k.0, k.1);
      assert key in rr && rr[key].records[i].content == k.2;
    }
  }

  function FlatOf(rr: RRsets): (f: Flat)
    ensures forall k :: k in f <==> Lookup(rr, k).Some?
    ensures forall k :: k in f ==> f[k] == Lookup(rr, k).value
  {
    assert forall k :: k in FlatKeys(rr) <==> Lookup(rr, k).Some? by {
      forall k ensures k in FlatKeys(rr) <==> Lookup(rr, k).Some? { FlatKeysAre(rr, k); }
    }
    map k | k in FlatKeys(rr) :: Lookup(rr, k).value
  }

  function Insert(f: Flat, k: FlatKey): Flat {
    if k in f then f else f[k := false]
  }

  /** What each edit means on the flat set. */
  function FlatApply(f: Flat, e: Edit): Flat {
    match e
    case Create(name, rtype, _, content) => Insert(f, (name, rtype, content))
    case Update(origName, rtype, origContent, name, content, _) =>
      Insert(f - {(origName, rtype, origContent)}, (name, rtype, content))
    case Delete(name, rtype, content) => f - {(name, rtype, content)}
    case SaveSpf(name, origContent, content, _) =>
      Insert(if origContent != "" then f - {(name, "TXT", origContent)} else f, (name, "TXT", content))
  }

  /** Canonical owner names, no empty rrset, no content twice. */
  ghost predicate Sound(rr: RRsets) {
    forall name, rtype :: (name, rtype) in rr ==>
      && Canonical(name) == name
      && rr[(name, rtype)].records != []
      && Distinct(rr[(name, rtype)].records)
  }

  predicate CanonicalNames(e: Edit) {
    Canonical(e.name) == e.name && (e.Update? ==> Canonical(e.origName) == e.origName)
  }

  lemma LookupReplaced(rr: RRsets, name: string, rtype: string, ttl: nat, recs: seq<Rec>, k: FlatKey)
    ensures Lookup(Replaced(rr, name, rtype, ttl, recs), k) ==
            if k.0 == Canonical(name) && k.1 == rtype then FindRec(recs, k.2) else Lookup(rr, k)
  {
    hide Canonical;
  }

  lemma ReplacedSound(rr: RRsets, name: string, rtype: string, ttl: nat, recs: seq<Rec>)
    requires Sound(rr) && Distinct(recs) && Canonical(name) == name
    ensures Sound(Replaced(rr, name, rtype, ttl, recs))
  {
    hide Canonical, Distinct;
  }

  lemma ContentsDistinct(rr: RRsets, name: string, rtype: string)
    requires Sound(rr)
    ensures Distinct(Contents(rr, name, rtype))
  {
    hide Canonical;
  }

  lemma LookupIs(rr: RRsets, name: string, rtype: string, content: string)
    ensures Lookup(rr, (name, rtype, content)) == FindRec(Contents(rr, name, rtype), content)
  {
  }

  // ---- what an edit does to each record ----------------------------------------------------

  function TypeOf(e: Edit): string {
    if e.SaveSpf? then "TXT" else e.rtype
  }

  /** The same edit by the owner names the handlers write to. */
  function Written(e: Edit): Edit {
    match e
    case Update(origName, rtype, origContent, name, content, ttl) =>
      var o := Canonical(origName);
      Update(o, rtype, origContent, if name == o then o else Canonical(name), content, ttl)
    case Create(name, rtype, ttl, content) => Create(Canonical(name), rtype, ttl, content)
    case Delete(name, rtype, content) => Delete(Canonical(name), rtype, content)
    case SaveSpf(name, origContent, content, ttl) => SaveSpf(Canonical(name), origContent, content, ttl)
  }

  /** The owner name and content of the record an edit takes out, if any. */
  function Taken(e: Edit): Option<(string, string)> {
    match e
    case Create(_, _, _, _) => None
    case Update(origName, _, origContent, _, _, _) => Some((origName, origContent))
    case Delete(name, _, content) => Some((name, content))
    case SaveSpf(name, origContent, _, _) => if origContent != "" then Some((name, origContent)) else None
  }

  /** The edit is meant to take out the record at `k`. */
  predicate TakesAt(e: Edit, k: FlatKey) {
    k.1 == TypeOf(e) && Taken(e) == Some((k.0, k.2))
  }

  /** The edit is meant to leave an enabled record at `k`. */
  predicate AddsAt(e: Edit, k: FlatKey) {
    !e.Delete? && k == (e.name, TypeOf(e), e.content)
  }

  lemma FlatApplyAt(f: Flat, e: Edit, k: FlatKey)
    ensures var g := FlatApply(f, e);
            && (k in g <==> AddsAt(e, k) || (k in f && !TakesAt(e, k)))
            && (k in g ==> g[k] == if k in f && !TakesAt(e, k) then f[k] else false)
  {
  }

  /** The record at `k` once the edit has taken its record out: by a name the handler did not find
      it takes out the whole rrset. */
  function AfterTaking(rr: RRsets, e: Edit, k: FlatKey): Option<bool> {
    if Taken(e).Some? && k.1 == TypeOf(e) && k.0 == Taken(Written(e)).value.0
       && (Taken(e).value.0 != k.0 || Taken(e).value.1 == k.2)
    then None
    else Lookup(rr, k)
  }

  /** The record at `k` after the edit: by a name the handler did not find it replaces the whole
      rrset with the new record. */
  function AfterAdding(e: Edit, k: FlatKey, before: Option<bool>): Option<bool> {
    var w := Written(e);
    if e.Delete? || k.0 != w.name || k.1 != TypeOf(e) then before
    else if k.2 == e.content && (before.None? || e.name != w.name) then Some(false)
    else if e.name != w.name then None
    else before
  }

  lemma AbsentName(rr: RRsets, name: string, rtype: string, content: string)
    requires Sound(rr) && Canonical(name) != name
    ensures Contents(rr, name, rtype) == [] && Removing([], content) == [] && FindRec([], content) == None
  {
    hide Canonical, Distinct;
  }

  lemma TakenOutAt(rr: RRsets, name: string, rtype: string, content: string, default: nat, k: FlatKey)
    requires Sound(rr)
    ensures Lookup(TakenOut(rr, name, rtype, content, default), k) ==
            if k.0 == Canonical(name) && k.1 == rtype && (name != k.0 || k.2 == content) then None else Lookup(rr, k)
  {
    hide Canonical, FindRec, Removing, Replaced, Lookup, Sound;
    var existing := Contents(rr, name, rtype);
    LookupReplaced(rr, name, rtype, TtlOr(rr, name, rtype, default), Removing(existing, content), k);
    LookupIs(rr, k.0, k.1, k.2);
    FindRemoving(existing, content, k.2);
    if Canonical(name) != name {
      AbsentName(rr, name, rtype, content);
      AbsentName(rr, name, rtype, k.2);
    }
  }

  lemma EditAt(rr: RRsets, e: Edit, k: FlatKey)
    requires Sound(rr)
    ensures Lookup(Apply(rr, e), k) == AfterAdding(e, k, AfterTaking(rr, e, k))
  {
    hide Canonical, FindRec, Removing, Adding, Replaced, Lookup, Sound, TakenOut, Contents;
    match e
    case Create(name, rtype, ttl, content) => CreateAt(rr, e, k);
    case Update(origName, rtype, origContent, name, content, ttl) =>
      if name == Canonical(origName) {
        RewriteAt(rr, e, k);
      } else {
        MoveAt(rr, e, k);
      }
    case Delete(name, rtype, content) => TakenOutAt(rr, name, rtype, content, DEFAULT_TTL, k);
    case SaveSpf(name, origContent, content, ttl) => SpfAt(rr, e, k);
  }

  lemma CreateAt(rr: RRsets, e: Edit, k: FlatKey)
    requires Sound(rr) && e.Create?
    ensures Lookup(Apply(rr, e), k) == AfterAdding(e, k, AfterTaking(rr, e, k))
  {
    hide Canonical, FindRec, Adding, Replaced, Lookup, Sound, Contents, Removing;
    var Create(name, rtype, ttl, content) := e;
    var existing := Contents(rr, name, rtype);
    LookupReplaced(rr, name, rtype, ttl, Adding(existing, content), k);
    FindAdding(existing, content, k.2);
    LookupIs(rr, name, rtype, k.2);
    if Canonical(name) != name {
      AbsentName(rr, name, rtype, k.2);
      AbsentName(rr, name, rtype, content);
    }
    assert k == (k.0, k.1, k.2);
  }

  /** An update that keeps the owner name. */
  lemma RewriteAt(rr: RRsets, e: Edit, k: FlatKey)
    requires Sound(rr) && e.Update? && e.name == Canonical(e.origName)
    ensures Lookup(Apply(rr, e), k) == AfterAdding(e, k, AfterTaking(rr, e, k))
  {
    hide Canonical, FindRec, Adding, Replaced, Lookup, Sound, Contents, Removing;
    var Update(origName, rtype, origContent, name, content, ttl) := e;
    var existing := Contents(rr, origName, rtype);
    var remaining := Removing(existing, origContent);
    LookupReplaced(rr, origName, rtype, ttl, Adding(remaining, content), k);
    FindAdding(remaining, content, k.2);
    FindRemoving(existing, origContent, k.2);
    LookupIs(rr, origName, rtype, k.2);
    if Canonical(origName) != origName {
      AbsentName(rr, origName, rtype, k.2);
      AbsentName(rr, origName, rtype, content);
      AbsentName(rr, origName, rtype, origContent);
    }
    assert k == (k.0, k.1, k.2);
  }

  lemma MoveAt(rr: RRsets, e: Edit, k: FlatKey)
    requires Sound(rr) && e.Update? && e.name != Canonical(e.origName)
    ensures Lookup(Apply(rr, e), k) == AfterAdding(e, k, AfterTaking(rr, e, k))
  {
    hide Canonical, FindRec, Adding, Replaced, Lookup, Sound, TakenOut, Contents, Removing;
    var Update(origName, rtype, origContent, name, content, ttl) := e;
    var without := TakenOut(rr, origName, rtype, origContent, ttl);
    var target := Contents(without, name, rtype);
    LookupReplaced(without, name, rtype, ttl, Adding(target, content), k);
    FindAdding(target, content, k.2);
    TakenOutAt(rr, origName, rtype, origContent, ttl, k);
    LookupIs(without, name, rtype, k.2);
    LookupIs(without, name, rtype, content);
    if Canonical(name) != name {
      TargetAbsent(rr, e);
      AbsentName(rr, name, rtype, k.2);
      AbsentName(rr, name, rtype, content);
    }
    assert k == (k.0, k.1, k.2);
  }

  lemma TargetAbsent(rr: RRsets, e: Edit)
    requires Sound(rr) && e.Update? && e.name != Canonical(e.origName) && Canonical(e.name) != e.name
    ensures Contents(TakenOut(rr, e.origName, e.rtype, e.origContent, e.ttl), e.name, e.rtype) == []
  {
    hide Canonical, Removing, Distinct;
  }

  lemma SpfAt(rr: RRsets, e: Edit, k: FlatKey)
    requires Sound(rr) && e.SaveSpf?
    ensures Lookup(Apply(rr, e), k) == AfterAdding(e, k, AfterTaking(rr, e, k))
  {
    hide Canonical, FindRec, Adding, Replaced, Lookup, Sound, Contents, Removing;
    var SaveSpf(name, origContent, content, ttl) := e;
    var existing := Contents(rr, name, "TXT");
    var remaining := if origContent != "" then Removing(existing, origContent) else existing;
    LookupReplaced(rr, name, "TXT", ttl, Adding(remaining, content), k);
    FindAdding(remaining, content, k.2);
    FindRemoving(existing, origContent, k.2);
    LookupIs(rr, name, "TXT", k.2);
    if Canonical(name) != name {
      AbsentName(rr, name, "TXT", k.2);
      AbsentName(rr, name, "TXT", content);
      AbsentName(rr, name, "TXT", origContent);
    }
    assert k == (k.0, k.1, k.2);
  }

  lemma EditSound(rr: RRsets, e: Edit)
    requires Sound(rr) && CanonicalNames(e)
    ensures Sound(Apply(rr, e))
  {
    hide Canonical, FindRec, Removing, Adding, Contents, Replaced, TakenOut, Sound, Distinct;
    match e
    case Create(name, rtype, ttl, content) =>
      ContentsDistinct(rr, name, rtype);
      AddedSound(rr, name, rtype, ttl, Contents(rr, name, rtype), content);
    case Update(origName, rtype, origContent, name, content, ttl) =>
      ContentsDistinct(rr, origName, rtype);
      RemovingDistinct(Contents(rr, origName, rtype), origContent);
      AddedSound(rr, origName, rtype, ttl, Removing(Contents(rr, origName, rtype), origContent), content);
      var without := TakenOut(rr, origName, rtype, origContent, ttl);
      TakenOutSound(rr, origName, rtype, origContent, ttl);
      ContentsDistinct(without, name, rtype);
      AddedSound(without, name, rtype, ttl, Contents(without, name, rtype), content);
    case Delete(name, rtype, content) =>
      TakenOutSound(rr, name, rtype, content, DEFAULT_TTL);
    case SaveSpf(name, origContent, content, ttl) =>
      var existing := Contents(rr, name, "TXT");
      ContentsDistinct(rr, name, "TXT");
      RemovingDistinct(existing, origContent);
      AddedSound(rr, name, "TXT", ttl, if origContent != "" then Removing(existing, origContent) else existing, content);
  }

  lemma AddedSound(rr: RRsets, name: string, rtype: string, ttl: nat, recs: seq<Rec>, content: string)
    requires Sound(rr) && Distinct(recs) && Canonical(name) == name
    ensures Sound(Replaced(rr, name, rtype, ttl, Adding(recs, content)))
  {
    hide Canonical, Adding, Replaced, Sound, Distinct;
    AddingDistinct(recs, content);
    ReplacedSound(rr, name, rtype, ttl, Adding(recs, content));
  }

  // ---- names that are not canonical --------------------------------------------------------

  /** The record at `k` comes out as meant. */
  predicate ComesOutAt(g: Flat, meant: Flat, k: FlatKey) {
    (k in g <==> k in meant) && (k in g ==> g[k] == meant[k])
  }

  /** The edit reads one owner name and writes another, `owner`. */
  predicate Overwrites(e: Edit, owner: string) {
    var w := Written(e);
    || (owner == w.name && e.name != w.name)
    || (e.Update? && owner == w.origName && e.origName != w.origName)
  }

  /** The record at `k` is in an rrset that the edit overwrites unread; it is neither the one to
      take out nor the very record the edit leaves there. */
  predicate LostAt(f: Flat, e: Edit, k: FlatKey) {
    && k in f && k.1 == TypeOf(e) && Overwrites(e, k.0)
    && !TakesAt(Written(e), k)
    && !(AddsAt(Written(e), k) && !f[k])
  }

  lemma SameFlat(g: Flat, meant: Flat)
    requires forall k: FlatKey :: ComesOutAt(g, meant, k)
    ensures g == meant
  {
    forall k: FlatKey ensures (k in g <==> k in meant) && (k in g ==> g[k] == meant[k]) {
      assert ComesOutAt(g, meant, k);
    }
  }

  lemma EditComesOutAt(rr: RRsets, e: Edit, k: FlatKey)
    requires Sound(rr)
    ensures ComesOutAt(FlatOf(Apply(rr, e)), FlatApply(FlatOf(rr), Written(e)), k) <==> !LostAt(FlatOf(rr), e, k)
  {
    hide Canonical, Sound, Lookup, Apply, FlatApply;
    EditAt(rr, e, k);
    FlatApplyAt(FlatOf(rr), Written(e), k);
    assert k == (k.0, k.1, k.2);
  }

  /** By names that are not canonical a handler overwrites the whole rrset of the canonical name
      unread. The edit still does what it means by the names it writes to if and only if no
      record of such an rrset is lost. */
  lemma EditByNameExactly(rr: RRsets, e: Edit)
    requires Sound(rr)
    ensures FlatOf(Apply(rr, e)) == FlatApply(FlatOf(rr), Written(e)) <==> forall k :: !LostAt(FlatOf(rr), e, k)
  {
    hide Canonical, Sound, Apply, FlatApply, LostAt, Written;
    var g, meant := FlatOf(Apply(rr, e)), FlatApply(FlatOf(rr), Written(e));
    forall k: FlatKey ensures ComesOutAt(g, meant, k) <==> !LostAt(FlatOf(rr), e, k) {
      EditComesOutAt(rr, e, k);
    }
    if forall k :: !LostAt(FlatOf(rr), e, k) {
      SameFlat(g, meant);
    } else {
      var k :| LostAt(FlatOf(rr), e, k);
      assert !ComesOutAt(g, meant, k);
    }
  }

  /** Deleting by a name that is not canonical drops the whole rrset of the canonical name. It
      still removes just the one record if and only if that rrset held no other. */
  lemma DeleteByNameExactly(rr: RRsets, name: string, rtype: string, content: string)
    requires Sound(rr)
    ensures FlatOf(Apply(rr, Delete(name, rtype, content))) == FlatOf(rr) - {(Canonical(name), rtype, content)}
            <==> Canonical(name) == name
                 || forall other :: other != content ==> (Canonical(name), rtype, other) !in FlatOf(rr)
  {
    hide Canonical, Sound, Lookup, Apply;
    var e, c := Delete(name, rtype, content), Canonical(name);
    EditByNameExactly(rr, e);
    if k :| LostAt(FlatOf(rr), e, k) {
      assert k == (c, rtype, k.2);
    } else {
      forall other | other != content && c != name ensures (c, rtype, other) !in FlatOf(rr) {
        assert !LostAt(FlatOf(rr), e, (c, rtype, other));
      }
    }
  }

  /** One edit refines its meaning on the flat set, disabled flags included, and keeps the
      rrsets sound. */
  lemma EditRefines(rr: RRsets, e: Edit)
    requires Sound(rr) && CanonicalNames(e)
    ensures FlatOf(Apply(rr, e)) == FlatApply(FlatOf(rr), e) && Sound(Apply(rr, e))
  {
    EditSound(rr, e);
    hide Canonical, Apply, FlatApply, Lookup, Sound;
    assert Written(e) == e;
    forall k ensures !LostAt(FlatOf(rr), e, k) {}
    EditByNameExactly(rr, e);
  }

  /** One rrset with two enabled records. */
  const TWO_RECORDS: RRsets := map[("x.z.", "A") := RRset(300, [Rec("1", false), Rec("2", false)])]

  lemma NameXZ()
    ensures Canonical("x.z.") == "x.z." && Canonical("X.z.") == "x.z."
  {
    hide Canonical;
    CanonicalOfDotted("x.z");
    CanonicalOfDotted("X.z");
    LowerXZ();
    hide Lower;
    assert "x.z" + "." == "x.z." && "X.z" + "." == "X.z.";
  }

  lemma LowerXZ()
    ensures Lower("x.z") == "x.z" && Lower("X.z") == "x.z"
  {
  }

  lemma FindAmongTwo(content: string)
    ensures FindRec([Rec("1", false), Rec("2", false)], content) ==
            if content == "1" || content == "2" then Some(false) else None
  {
    assert [Rec("1", false), Rec("2", false)][1..] == [Rec("2", false)] && [Rec("2", false)][1..] == [];
    assert FindRec([], content) == None;
  }

  lemma TwoRecords()
    ensures Sound(TWO_RECORDS)
    ensures FlatOf(TWO_RECORDS) == map[("x.z.", "A", "1") := false, ("x.z.", "A", "2") := false]
    ensures Canonical("x.z.") == "x.z." && Canonical("X.z.") == "x.z."
  {
    NameXZ();
    hide Canonical, FindRec, Lookup;
    forall k ensures Lookup(TWO_RECORDS, k) ==
                     if k == ("x.z.", "A", "1") || k == ("x.z.", "A", "2") then Some(false) else None
    {
      FindAmongTwo(k.2);
      assert k == (k.0, k.1, k.2);
      LookupTwo(k);
    }
  }

  lemma LookupTwo(k: FlatKey)
    ensures Lookup(TWO_RECORDS, k) ==
            FindRec(if k.0 == "x.z." && k.1 == "A" then [Rec("1", false), Rec("2", false)] else [], k.2)
    ensures FindRec([], k.2) == None
  {
  }

  /** Deleting one of them by the name in capitals deletes both. */
  lemma DeleteByNameBroken()
    ensures Sound(TWO_RECORDS) && FlatOf(Apply(TWO_RECORDS, Delete("X.z.", "A", "1"))) == map[]
  {
    TwoRecords();
    hide Canonical, Lookup, Apply, FlatOf;
    var e := Delete("X.z.", "A", "1");
    forall k ensures Lookup(Apply(TWO_RECORDS, e), k) == None {
      EditAt(TWO_RECORDS, e, k);
      InFlat(TWO_RECORDS, k);
    }
    EmptyFlat(Apply(TWO_RECORDS, e));
  }

  lemma InFlat(rr: RRsets, k: FlatKey)
    ensures Lookup(rr, k).Some? <==> k in FlatOf(rr)
  {
  }

  lemma EmptyFlat(rr: RRsets)
    requires forall k :: Lookup(rr, k) == None
    ensures FlatOf(rr) == map[]
  {
    hide Lookup;
  }

  /** Updating one of them by the name in capitals loses the other. */
  lemma UpdateByNameBroken()
    ensures var e := Update("X.z.", "A", "1", "x.z.", "3", 300);
            Sound(TWO_RECORDS) && FlatOf(Apply(TWO_RECORDS, e)) != FlatApply(FlatOf(TWO_RECORDS), Written(e))
  {
    TwoRecords();
    hide Canonical, Apply, FlatOf, FlatApply;
    var e := Update("X.z.", "A", "1", "x.z.", "3", 300);
    assert LostAt(FlatOf(TWO_RECORDS), e, ("x.z.", "A", "2"));
    EditByNameExactly(TWO_RECORDS, e);
  }

  /** A move whose second write fails has removed the record and nothing else: it is lost. */
  lemma MoveCutShort(rr: RRsets, name: string, rtype: string, content: string, ttl: nat)
    requires Sound(rr) && Canonical(name) == name
    ensures var t := TakenOut(rr, name, rtype, content, ttl);
            FlatOf(t) == FlatOf(rr) - {(name, rtype, content)} && Sound(t)
  {
    hide Canonical, Lookup, TakenOut;
    forall k ensures Lookup(TakenOut(rr, name, rtype, content, ttl), k) ==
                     if k == (name, rtype, content) then None else Lookup(rr, k)
    {
      TakenOutAt(rr, name, rtype, content, ttl, k);
      assert k == (k.0, k.1, k.2);
    }
    TakenOutSound(rr, name, rtype, content, ttl);
  }

  lemma TakenOutSound(rr: RRsets, name: string, rtype: string, content: string, ttl: nat)
    requires Sound(rr) && Canonical(name) == name
    ensures Sound(TakenOut(rr, name, rtype, content, ttl))
  {
    hide Canonical, Removing, Contents, Replaced, Sound, Distinct;
    ContentsDistinct(rr, name, rtype);
    RemovingDistinct(Contents(rr, name, rtype), content);
    ReplacedSound(rr, name, rtype, TtlOr(rr, name, rtype, ttl), Removing(Contents(rr, name, rtype), content));
  }

  // ---- sequences of edits by canonical names ------------------------------------------------

  function ApplyAll(rr: RRsets, edits: seq<Edit>): RRsets {
    if edits == [] then rr else Apply(ApplyAll(rr, edits[..|edits| - 1]), edits[|edits| - 1])
  }

  function FlatApplyAll(f: Flat, edits: seq<Edit>): Flat {
    if edits == [] then f else FlatApply(FlatApplyAll(f, edits[..|edits| - 1]), edits[|edits| - 1])
  }

  /** Any sequence of creates, updates (with moves), deletes and SPF saves equals insertions and
      removals on the flat set; contents stay distinct and no rrset is left empty. */
  lemma {:induction false} EditsRefine(rr: RRsets, edits: seq<Edit>)
    requires Sound(rr) && forall i :: 0 <= i < |edits| ==> CanonicalNames(edits[i])
    ensures FlatOf(ApplyAll(rr, edits)) == FlatApplyAll(FlatOf(rr), edits) && Sound(ApplyAll(rr, edits))
  {
    hide Apply, FlatApply, Sound, CanonicalNames;
    if edits != [] {
      var n := |edits| - 1;
      EditsRefine(rr, edits[..n]);
      EditRefines(ApplyAll(rr, edits[..n]), edits[n]);
    }
  }

  /** An edit leaves every rrset of another name or type as it was, TTL and order included. */
  lemma OtherRrsetsUntouched(rr: RRsets, e: Edit, key: (string, string))
    requires CanonicalNames(e)
    requires key != (e.name, if e.SaveSpf? then "TXT" else e.rtype)
    requires e.Update? ==> key != (e.origName, e.rtype)
    ensures key in Apply(rr, e) <==> key in rr
    ensures key in rr ==> Apply(rr, e)[key] == rr[key]
  {
    hide Canonical, Removing, Adding;
  }

  // ---- TTLs --------------------------------------------------------------------------------

  /** A TTL survives the removal of a record beside it exactly when it is not 0, or is the default
      that replaces 0. */
  predicate TtlKept(before: nat, after: nat, default: nat) {
    after == before <==> before != 0 || before == default
  }

  /** Whoever adds a record sets the TTL of its whole rrset. A removal leaves the TTL to the records
      that stay, also when the removed one moves elsewhere, unless it is 0. */
  lemma EditTtls(rr: RRsets, e: Edit)
    requires CanonicalNames(e)
    ensures var after, rtype := Apply(rr, e), TypeOf(e);
            && (!e.Delete? ==> (e.name, rtype) in after && after[(e.name, rtype)].ttl == e.ttl)
            && (e.Delete? && (e.name, rtype) in after ==>
                  (e.name, rtype) in rr
                  && TtlKept(rr[(e.name, rtype)].ttl, after[(e.name, rtype)].ttl, DEFAULT_TTL))
            && (e.Update? && e.origName != e.name && (e.origName, rtype) in after ==>
                  (e.origName, rtype) in rr
                  && TtlKept(rr[(e.origName, rtype)].ttl, after[(e.origName, rtype)].ttl, e.ttl))
  {
    hide Canonical;
    AddingNotEmpty();
    NothingToRemove(if e.Delete? then e.content else if e.Create? then "" else e.origContent);
  }

  lemma NothingToRemove(content: string)
    ensures Removing([], content) == [] && FindRec([], content) == None
  {
  }

  /** Two records with TTL 0: deleting one gives the other a TTL of 3600. */
  lemma ZeroTtlBroken()
    ensures var rr: RRsets := map[("x.z.", "A") := RRset(0, [Rec("1", false), Rec("2", false)])];
            Apply(rr, Delete("x.z.", "A", "1")) == map[("x.z.", "A") := RRset(DEFAULT_TTL, [Rec("2", false)])]
  {
    NameXZ();
    hide Canonical;
    NothingToRemove("1");
    assert [Rec("1", false), Rec("2", false)][1..] == [Rec("2", false)] && [Rec("2", false)][1..] == [];
    assert Removing([Rec("2", false)], "1") == [Rec("2", false)];
    assert Removing([Rec("1", false), Rec("2", false)], "1") == [Rec("2", false)];
  }

  lemma AddingNotEmpty()
    ensures forall recs, content :: Adding(recs, content) != []
  {
    forall recs, content ensures Adding(recs, content) != [] {
      NothingToRemove(content);
    }
  }

  // ---- saving an SPF record ----------------------------------------------------------------

  /** After saving a valid record, the zone holds it, and its stored content parses to the saved
      terms, now without outer spaces; the record the form then builds from it has those terms
      too, unless it holds a complete quoted string. */
  lemma SavedSpfReadsBack(v: Validators, rr: RRsets, name: string, origContent: string, content: string, ttl: nat)
    requires Sound(rr) && Parsed(v, content).Valid()
    ensures var p := Parsed(v, content);
            var stored := QuoteTxt(p.raw);
            var again := Parsed(v, stored);
            && (Canonical(Canonical(name)), "TXT", stored)
                 in FlatOf(Apply(rr, SaveSpf(Canonical(name), origContent, stored, ttl)))
            && again.Valid() && again.terms == p.terms && again.raw == Strip(p.raw)
            && (FindQuoted(BuildSpf(p.terms)) == [] <==>
                  var built := Parsed(v, BuildSpf(again.terms));
                  built.Valid() && SameTerms(built.terms, p.terms))
  {
    var stored := QuoteTxt(Parsed(v, content).raw);
    StoredParses(v, content);
    hide Canonical, Parsed, QuoteTxt, Strip, Sound, FlatOf, Apply, BuildSpf, FindQuoted;
    RecordRoundTripExactly(v, stored);
    AddedIsThere(rr, SaveSpf(Canonical(name), origContent, stored, ttl));
  }

  lemma AddedIsThere(rr: RRsets, e: Edit)
    requires Sound(rr) && !e.Delete?
    ensures (Written(e).name, TypeOf(e), e.content) in FlatOf(Apply(rr, e))
  {
    hide Canonical, Sound, Lookup, Apply;
    EditAt(rr, e, (Written(e).name, TypeOf(e), e.content));
  }
}
