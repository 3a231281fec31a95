/** What the handlers guarantee over whole runs: no dangling keys in any intermediate state, the
    clean-up of a deleted zone's keys, the dynamic-update gate, and one sender of NOTIFY. */
module PanelRuns {
  import opened Wrappers
  import opened Text
  import opened KeyStore
  import opened PdnsClient
  import opened ZoneHandlers

  datatype Request =
    | Create(zone: string, custom: bool)
    | ModeCustom(zone: string)
    | ModeCatalog(zone: string)
    | KeyAdd(zone: string, name: string)
    | KeyDelete(zone: string, name: string)
    | UpdateKeyAdd(zone: string, name: string)
    | UpdateKeyDelete(zone: string, name: string)
    | UpdateIps(zone: string, ranges: seq<string>)
    | NotifyTargets(zone: string, targets: seq<string>)
    | Delete(zone: string)

  /** Requests act on ordinary zones, and name keys to delete by their tidy spelling, or global ones
      by any. */
  predicate Proper(cfg: Config, r: Request) {
    match r
    case KeyDelete(zone, name) => zone != cfg.catalog && (Tidy(name) || cfg.IsGlobal(name))
    case UpdateKeyDelete(_, name) => Tidy(name) || cfg.IsGlobal(name)
    case _ => r.zone != cfg.catalog
  }

  /** What any completed delete leaves: the zone is gone, and no key but its orphans. */
  ghost predicate Deleted(cfg: Config, s: Store, t: Store, zone: string) {
    && zone in s.zones && t.zones == s.zones - {zone}
    && s.keys - DeletableKeys(cfg, s, zone) <= t.keys <= s.keys
  }

  method Handle(pdns: Client, r: Request) returns (st: Status)
    requires pdns.cfg.Valid()
    modifies pdns
    ensures old(pdns.Good()) && Proper(pdns.cfg, r) ==> pdns.Good()
    ensures st.Done? && !r.Delete? ==> pdns.store == Completed(pdns.cfg, old(pdns.store), r)
    ensures st.Done? && r.Delete? ==> Deleted(pdns.cfg, old(pdns.store), pdns.store, r.zone)
    ensures st.Done? && r.Delete? && pdns.failures == old(pdns.failures) ==>
              pdns.store == Completed(pdns.cfg, old(pdns.store), r)
  {
    hide Canonical, Consistent, Tidy, Config.IsGlobal, Config.Valid, Orphans, FormerKeys;
    match r
    case Create(zone, custom) => st := ZoneCreate(pdns, zone, custom);
    case ModeCustom(zone) => st := ZoneModeCustom(pdns, zone);
    case ModeCatalog(zone) => st := ZoneModeCatalog(pdns, zone);
    case KeyAdd(zone, name) => st := ZoneKeyAdd(pdns, zone, name);
    case KeyDelete(zone, name) => st := ZoneKeyDelete(pdns, zone, name);
    case UpdateKeyAdd(zone, name) => st := ZoneUpdateKeyAdd(pdns, zone, name);
    case UpdateKeyDelete(zone, name) => st := ZoneUpdateKeyDelete(pdns, zone, name);
    case UpdateIps(zone, ranges) => st := ZoneUpdateIps(pdns, zone, ranges);
    case NotifyTargets(zone, targets) => st := ZoneNotifyTargets(pdns, zone, targets);
    case Delete(zone) => st := ZoneDelete(pdns, zone);
  }

  /** Over every sequence of proper requests, with any call of any handler failing, no zone
      ever references a key that does not exist: `Good` speaks of every intermediate store. */
  method Serve(pdns: Client, requests: seq<Request>)
    requires pdns.cfg.Valid() && pdns.Good()
    requires forall i :: 0 <= i < |requests| ==> Proper(pdns.cfg, requests[i])
    modifies pdns
    ensures pdns.Good()
  {
    hide Canonical, Consistent, Config.Valid, Proper;
    for i := 0 to |requests|
      invariant pdns.Good()
    {
      var _ := Handle(pdns, requests[i]);
    }
  }

  // ---- completed requests ------------------------------------------------------------------

  /** The store a completed request leaves; one that cannot complete leaves it alone. */
  function Completed(cfg: Config, s: Store, r: Request): Store {
    match r
    case Create(zone, custom) => if zone in s.zones then s else AfterCreate(cfg, s, zone, custom)
    case ModeCustom(zone) => if zone in s.zones then AfterModeCustom(cfg, s, zone) else s
    case ModeCatalog(zone) => if zone in s.zones then AfterModeCatalog(cfg, s, zone) else s
    case KeyAdd(zone, name) => if zone in s.zones then AfterKeyAdd(s, zone, KeyNameOf(name)) else s
    case KeyDelete(zone, name) => if zone in s.zones then AfterKeyDelete(s, zone, name) else s
    case UpdateKeyAdd(zone, name) => AfterUpdateKeyAdd(s, zone, KeyNameOf(name))
    case UpdateKeyDelete(zone, name) => AfterUpdateKeyDelete(cfg, s, zone, name)
    case UpdateIps(zone, ranges) => AfterSetIps(s, zone, ranges)
    case NotifyTargets(zone, targets) => if zone in s.zones then AfterNotifyTargets(s, zone, targets) else s
    case Delete(zone) => if zone in s.zones then AfterDelete(cfg, s, zone) else s
  }

  function RunOf(cfg: Config, s: Store, requests: seq<Request>): Store {
    if requests == [] then s
    else Completed(cfg, RunOf(cfg, s, requests[..|requests| - 1]), requests[|requests| - 1])
  }

  // ---- the keys of a deleted zone ----------------------------------------------------------

  /** The keys set aside are those of the deleted zone that are not global. */
  lemma FormerKeysExactly(cfg: Config, s: Store, zone: string, id: string)
    requires Consistent(cfg, s) && zone in s.zones
    ensures (exists k :: k in FormerKeys(cfg, s, zone) && Canonical(k) == id)
            <==> DependsOn(s.zones[zone], id) && !cfg.IsGlobalId(id)
  {
    hide Canonical, Bare, Config.IsGlobalId, NotAmong, NonGlobal;
    var rec, former := s.zones[zone], FormerKeys(cfg, s, zone);
    var axfr, keys := BareAll(rec.axfr), s.UpdateKeysOf(zone);
    var own, others := NonGlobal(cfg, axfr), NonGlobal(cfg, keys);
    ZoneSound(cfg, s, zone);
    BareIdsTidy(s.keys, rec.axfr);
    BareAllIsIdentity(s.keys, rec.updateKeys);
    NonGlobalMembers(cfg, axfr);
    NonGlobalMembers(cfg, keys);
    NotAmongMembers(own, others);
    if k :| k in former && Canonical(k) == id {
      assert k in own || k in others;
    }
    if DependsOn(rec, id) && !cfg.IsGlobalId(id) {
      var k := FormerKeyOf(cfg, s, zone, id);
      assert k in own || k in others;
      assert k in own || k in NotAmong(own, others) || exists o :: o in own && Canonical(o) == Canonical(k);
    }
  }

  lemma FormerKeyOf(cfg: Config, s: Store, zone: string, id: string) returns (k: string)
    requires Consistent(cfg, s) && zone in s.zones && DependsOn(s.zones[zone], id)
    ensures Canonical(k) == id && (k in BareAll(s.zones[zone].axfr) || k in s.UpdateKeysOf(zone))
  {
    hide Canonical, Bare;
    var rec := s.zones[zone];
    ZoneSound(cfg, s, zone);
    BareAllIsIdentity(s.keys, rec.updateKeys);
    if id in rec.axfr {
      var i :| 0 <= i < |rec.axfr| && rec.axfr[i] == id;
      k := BareAll(rec.axfr)[i];
    } else {
      k :| k in rec.updateKeys && k + "." == id;
      BareNameFacts(k);
    }
  }

  /** The keys a delete may remove are the non-global ones the zone references and no other does. */
  lemma DeletableExactly(cfg: Config, s: Store, zone: string, id: string)
    requires Consistent(cfg, s) && zone in s.zones && zone != cfg.catalog
    ensures id in DeletableKeys(cfg, s, zone)
            <==> DependsOn(s.zones[zone], id) && !cfg.IsGlobalId(id)
                 && !Referenced(Store(s.keys, s.zones - {zone}), id)
  {
    hide Canonical, Bare, IsId, Tidy, InUse, Referenced, FormerKeys, Consistent, NoDangling, DependsOn;
    var rest := Store(s.keys, s.zones - {zone});
    var former := FormerKeys(cfg, s, zone);
    FormerKeysTidy(cfg, s, zone);
    FormerKeysExactly(cfg, s, zone, id);
    ZoneDeleteKept(cfg, s, zone);
    forall k | k in former && Canonical(k) == id ensures InUse(rest, k) == Referenced(rest, id) {
      ConsistentNoDangling(cfg, rest);
      InUseIsReferenced(rest, k);
    }
  }

  /** However a delete completes, a key that is gone was referenced by the deleted zone, is not
      global, and is not referenced by any other: no other key is lost. */
  lemma DeleteLosesOnlyOrphans(cfg: Config, s: Store, t: Store, zone: string, id: string)
    requires Consistent(cfg, s) && zone != cfg.catalog && Deleted(cfg, s, t, zone)
    requires id in s.keys && id !in t.keys
    ensures DependsOn(s.zones[zone], id) && !cfg.IsGlobalId(id) && !Referenced(t, id)
  {
    hide Canonical, Referenced, Consistent, DependsOn, Config.IsGlobalId, DeletableKeys;
    DeletableExactly(cfg, s, zone, id);
    ReferencedOfZones(Store(s.keys, s.zones - {zone}), t, id);
  }

  /** After a delete in which no call failed, a non-global key the zone referenced survives exactly
      if another zone references it, and no other key is lost. */
  lemma DeleteCleansUp(cfg: Config, s: Store, zone: string, id: string)
    requires Consistent(cfg, s) && zone in s.zones && zone != cfg.catalog
    requires id in s.keys
    ensures var t := Completed(cfg, s, Delete(zone));
            && t.zones == s.zones - {zone} && t.keys <= s.keys
            && (id in t.keys <==> !DependsOn(s.zones[zone], id) || cfg.IsGlobalId(id) || Referenced(t, id))
  {
    hide Canonical, Referenced, Consistent, DependsOn, Config.IsGlobalId, Orphans, FormerKeys;
    DeletableExactly(cfg, s, zone, id);
    ReferencedOfZones(Store(s.keys, s.zones - {zone}), AfterDelete(cfg, s, zone), id);
  }

  lemma ConsistentNoDangling(cfg: Config, s: Store)
    requires Consistent(cfg, s)
    ensures NoDangling(s)
  {
  }

  lemma ReferencedOfZones(s: Store, t: Store, id: string)
    requires s.zones == t.zones
    ensures Referenced(s, id) == Referenced(t, id)
  {
  }

  // ---- deleting a key by an untidy name ----------------------------------------------------

  /** Deleting an update key never leaves another zone's key dangling, whatever the store, if
      and only if the key is named by its tidy spelling or is global. */
  lemma UpdateKeyDeleteExactly(cfg: Config, name: string)
    requires cfg.Valid() && NamesAKey(name)
    ensures (forall s: Store, zone: string :: Consistent(cfg, s) && zone in s.zones && zone != cfg.catalog ==>
               NoDangling(AfterUpdateKeyDelete(cfg, s, zone, name)))
            <==> Tidy(name) || cfg.IsGlobal(name)
  {
    hide Canonical, Bare, Consistent, NoDangling, Tidy, Config.IsGlobal, NamesAKey, Config.Valid, AfterUpdateKeyDelete;
    if Tidy(name) || cfg.IsGlobal(name) {
      forall s: Store, zone: string | Consistent(cfg, s) && zone in s.zones && zone != cfg.catalog
        ensures NoDangling(AfterUpdateKeyDelete(cfg, s, zone, name))
      {
        UpdateKeyDeleteSafe(cfg, s, zone, name);
      }
    } else {
      var s, zone := UpdateKeyDeleteDangles(cfg, name);
    }
  }

  lemma UpdateKeyDeleteSafe(cfg: Config, s: Store, zone: string, name: string)
    requires Consistent(cfg, s) && (Tidy(name) || cfg.IsGlobal(name))
    ensures NoDangling(AfterUpdateKeyDelete(cfg, s, zone, name))
  {
    hide Canonical, Bare, Tidy, Config.IsGlobal, IsId, IsBareName;
    var t := AfterSetKeys(s, zone, Without(s.UpdateKeysOf(zone), name));
    StoredKeysSound(cfg, s, zone);
    WithoutUpdateKeySound(s.keys, s.UpdateKeysOf(zone), name);
    NoKeysSound(s.keys);
    assert NoDangling(t);
    if !cfg.IsGlobal(name) {
      InUseIsReferenced(t, name);
      KeyDeleteKeptExactly(t, Canonical(name));
    }
  }

  /** A request for another zone than the one that uses the key is enough. */
  lemma UpdateKeyDeleteDangles(cfg: Config, name: string) returns (s: Store, zone: string)
    requires cfg.Valid() && NamesAKey(name) && !Tidy(name) && !cfg.IsGlobal(name)
    ensures Consistent(cfg, s) && zone in s.zones && zone != cfg.catalog
    ensures !NoDangling(AfterUpdateKeyDelete(cfg, s, zone, name))
  {
    hide Canonical, Bare, Tidy, Config.IsGlobal, IsId, IsBareName, Referenced, InUse, Consistent, NoDangling, NamesAKey, Config.Valid;
    s, zone := MissedReference(cfg, name);
    ConsistentNoDangling(cfg, s);
    DeletesDangle(cfg, s, zone, name);
  }

  /** A delete in a zone without keys removes a key whose use the panel misses. */
  lemma DeletesDangle(cfg: Config, s: Store, zone: string, name: string)
    requires zone in s.zones && s.zones[zone] == Zone(Master, "", [], [], [], [])
    requires NoDangling(s) && Referenced(s, Canonical(name)) && !InUse(s, name) && !cfg.IsGlobal(name)
    ensures !NoDangling(AfterUpdateKeyDelete(cfg, s, zone, name)) && !NoDangling(AfterKeyDelete(s, zone, name))
  {
    hide Canonical, Bare, Referenced, InUse, NoDangling, Config.IsGlobal;
    KeyDeleteKeptExactly(s, Canonical(name));
    NoKeysToRemove(s, zone, name);
  }

  lemma NoKeysToRemove(s: Store, zone: string, name: string)
    requires zone in s.zones && s.zones[zone] == Zone(Master, "", [], [], [], [])
    ensures AfterSetKeys(s, zone, Without(s.UpdateKeysOf(zone), name)) == s
    ensures AfterKeyDelete(s, zone, name) == Released(s, name)
  {
    NoNames(name);
    assert BareAll([]) == [];
    hide Canonical, Bare, Released, CanonicalAll, BareAll, Without;
    assert s.Put(zone, s.zones[zone]) == s;
  }

  // ---- one sender of NOTIFY ----------------------------------------------------------------

  /** PowerDNS sends NOTIFY by itself for every zone that is not Native. */
  predicate PdnsSends(rec: Zone) {
    rec.kind != Native
  }

  /** The panel sends NOTIFY itself for a zone with its own list. */
  predicate PanelSends(rec: Zone) {
    rec.alsoNotify != []
  }

  /** The zone, if it exists, has exactly one sender: it is Native exactly when it has a list. */
  predicate OneSender(s: Store, zone: string) {
    zone in s.zones ==> PdnsSends(s.zones[zone]) != PanelSends(s.zones[zone])
  }

  /** A request that completes at `s` and sets the kind and the list of `zone` together: it creates
      the zone, puts it in catalog mode or sets its targets. */
  predicate SetsSender(s: Store, r: Request, zone: string) {
    r.zone == zone && (if zone in s.zones then r.ModeCatalog? || r.NotifyTargets? else r.Create?)
  }

  /** Some request of a run sets the sender of `zone`. */
  predicate SenderSet(cfg: Config, s: Store, requests: seq<Request>, zone: string) {
    exists i :: 0 <= i < |requests| && SetsSender(RunOf(cfg, s, requests[..i]), requests[i], zone)
  }

  /** One request gives its zone one sender, or leaves a zone's senders as they are. */
  lemma SenderAfter(cfg: Config, s: Store, r: Request, zone: string)
    ensures var t := Completed(cfg, s, r);
            if SetsSender(s, r, zone) then zone in t.zones && OneSender(t, zone)
            else (zone in t.zones ==> zone in s.zones) && (zone in t.zones ==> (OneSender(t, zone) <==> OneSender(s, zone)))
  {
    hide Canonical, Bare, InUse, Orphans, CanonicalAll, BareAll, FormerKeys, Without, LowerBareAll, Config.IsGlobal, KeyNameOf;
  }

  lemma SenderSetSnoc(cfg: Config, s: Store, requests: seq<Request>, zone: string)
    requires requests != []
    ensures var n := |requests| - 1;
            SenderSet(cfg, s, requests, zone)
            <==> SenderSet(cfg, s, requests[..n], zone) || SetsSender(RunOf(cfg, s, requests[..n]), requests[n], zone)
  {
    hide RunOf, SetsSender;
    var n := |requests| - 1;
    forall i | 0 <= i < n ensures requests[..n][..i] == requests[..i] && requests[..n][i] == requests[i] {}
    if i :| 0 <= i < n && SetsSender(RunOf(cfg, s, requests[..n][..i]), requests[..n][i], zone) {
      assert SetsSender(RunOf(cfg, s, requests[..i]), requests[i], zone);
    }
    if i :| 0 <= i < |requests| && SetsSender(RunOf(cfg, s, requests[..i]), requests[i], zone) {
      assert i < n ==> SetsSender(RunOf(cfg, s, requests[..n][..i]), requests[..n][i], zone);
    }
  }

  /** From any store, also one that an interrupted handler left, an existing zone has exactly one
      sender after a run of completed requests if and only if it had one before, or some request
      of the run created it, put it in catalog mode or set its targets. */
  lemma {:induction false} OneSenderExactly(cfg: Config, s: Store, requests: seq<Request>, zone: string)
    requires zone in RunOf(cfg, s, requests).zones
    ensures OneSender(RunOf(cfg, s, requests), zone)
            <==> (zone in s.zones && OneSender(s, zone)) || SenderSet(cfg, s, requests, zone)
  {
    if requests != [] {
      var n := |requests| - 1;
      var before := RunOf(cfg, s, requests[..n]);
      SenderAfter(cfg, before, requests[n], zone);
      SenderSetSnoc(cfg, s, requests, zone);
      hide Completed, OneSender, SetsSender, SenderSet;
      if !SetsSender(before, requests[n], zone) {
        OneSenderExactly(cfg, s, requests[..n], zone);
      }
    }
  }

  // ---- deleting a transfer key by an untidy name -------------------------------------------

  /** The same limit holds for transfer keys: whatever the store, the zone and its keys, deleting
      one leaves nothing dangling if and only if the name is tidy or global. */
  lemma TransferKeyDeleteExactly(cfg: Config, name: string)
    requires cfg.Valid() && NamesAKey(name)
    ensures (forall s: Store, zone: string :: Consistent(cfg, s) && zone in s.zones && zone != cfg.catalog ==>
               NoDangling(AfterKeyDelete(s, zone, name)))
            <==> Tidy(name) || cfg.IsGlobal(name)
  {
    hide Canonical, Bare, Consistent, NoDangling, Tidy, Config.IsGlobal, NamesAKey, Config.Valid, AfterKeyDelete;
    if Tidy(name) || cfg.IsGlobal(name) {
      forall s: Store, zone: string | Consistent(cfg, s) && zone in s.zones && zone != cfg.catalog
        ensures NoDangling(AfterKeyDelete(s, zone, name))
      {
        TransferKeyDeleteSafe(cfg, s, zone, name);
      }
    } else {
      var s, zone := TransferKeyDeleteDangles(cfg, name);
    }
  }

  lemma TransferKeyDeleteSafe(cfg: Config, s: Store, zone: string, name: string)
    requires Consistent(cfg, s) && zone in s.zones && zone != cfg.catalog && (Tidy(name) || cfg.IsGlobal(name))
    ensures NoDangling(AfterKeyDelete(s, zone, name))
  {
    hide Canonical, Bare, Tidy, IsId, IsBareName, CanonicalAll, BareAll, Consistent, NoDangling, AxfrSound, UpdateSound, InUse, Referenced;
    var rec := s.zones[zone].(axfr := CanonicalAll(Without(BareAll(s.zones[zone].axfr), name)));
    var t := s.Put(zone, rec);
    ZoneSound(cfg, s, zone);
    WithoutKeySound(s.keys, s.zones[zone].axfr, name);
    AxfrWriteKept(cfg, s, zone, rec);
    ConsistentNoDangling(cfg, t);
    if Tidy(name) {
      InUseIsReferenced(t, name);
      KeyDeleteKeptExactly(t, Canonical(name));
    } else {
      GlobalInUse(cfg, t, name);
    }
  }

  lemma TransferKeyDeleteDangles(cfg: Config, name: string) returns (s: Store, zone: string)
    requires cfg.Valid() && NamesAKey(name) && !Tidy(name) && !cfg.IsGlobal(name)
    ensures Consistent(cfg, s) && zone in s.zones && zone != cfg.catalog && !NoDangling(AfterKeyDelete(s, zone, name))
  {
    hide Canonical, Bare, Tidy, Config.IsGlobal, IsId, IsBareName, Referenced, InUse, Consistent, NoDangling, NamesAKey, Config.Valid;
    s, zone := MissedReference(cfg, name);
    ConsistentNoDangling(cfg, s);
    DeletesDangle(cfg, s, zone, name);
  }

  lemma NoNames(name: string)
    ensures CanonicalAll(Without(BareAll([]), name)) == [] && Without([], name) == []
  {
    assert BareAll([]) == [];
  }

  /** Deleting key "FOO" in the other zone, for updates or for transfers, deletes the key. */
  lemma KeyDeleteBroken()
    ensures Consistent(NO_GLOBALS, FOO_STORE) && !Tidy("FOO")
    ensures !NoDangling(AfterUpdateKeyDelete(NO_GLOBALS, FOO_STORE, "a.", "FOO"))
    ensures !NoDangling(AfterKeyDelete(FOO_STORE, "a.", "FOO"))
  {
    InUseBroken();
    hide Canonical, Bare, InUse, Referenced, Tidy, Config.IsGlobal, Consistent, NoDangling, AfterKeyDelete, AfterUpdateKeyDelete;
    ConsistentNoDangling(NO_GLOBALS, FOO_STORE);
    DeletesDangle(NO_GLOBALS, FOO_STORE, "a.", "FOO");
  }
}
