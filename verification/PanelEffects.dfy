/** What each completed zone, key and access request does to the store, field by field and key by
    key, and which requests decide whether a zone is in the catalog. */
module PanelEffects {
  import opened Text
  import opened KeyStore
  import opened PdnsClient
  import opened ZoneHandlers
  import opened PanelRuns

  // ---- transfer keys -----------------------------------------------------------------------

  /** Only `zone` may have changed, and the same zones exist. */
  predicate OnlyZone(s: Store, t: Store, zone: string) {
    t.zones.Keys == s.zones.Keys && forall z :: z in s.zones && z != zone ==> t.zones[z] == s.zones[z]
  }

  /** Only the key `id` may have come or gone. */
  ghost predicate OnlyKey(s: Store, t: Store, id: string) {
    forall k :: k != id ==> (k in t.keys <==> k in s.keys)
  }

  lemma CanonicalAllMembers(names: seq<string>, id: string)
    ensures id in CanonicalAll(names) <==> exists n :: n in names && Canonical(n) == id
  {
    hide Canonical;
    if id in CanonicalAll(names) {
      var i :| 0 <= i < |names| && CanonicalAll(names)[i] == id;
      assert names[i] in names;
    }
    if n :| n in names && Canonical(n) == id {
      var i :| 0 <= i < |names| && names[i] == n;
      assert CanonicalAll(names)[i] == id;
    }
  }

  /** The names of stored ids are the stored ids once more. */
  lemma BareNamesMembers(keys: set<string>, ids: seq<string>, id: string)
    requires AxfrSound(keys, ids)
    ensures id in ids <==> exists n :: n in BareAll(ids) && Canonical(n) == id
  {
    hide Canonical, Bare;
    BareIdsTidy(keys, ids);
    if id in ids {
      var i :| 0 <= i < |ids| && ids[i] == id;
      assert BareAll(ids)[i] == Bare(id) && BareAll(ids)[i] in BareAll(ids);
      assert Canonical(Bare(id)) == id by { assert IsId(id); }
    }
  }

  lemma WithoutIds(keys: set<string>, ids: seq<string>, name: string, id: string)
    requires AxfrSound(keys, ids)
    ensures id in CanonicalAll(Without(BareAll(ids), name)) <==> id in ids && id != Canonical(name)
  {
    hide Canonical, Bare;
    CanonicalAllMembers(Without(BareAll(ids), name), id);
    WithoutMembers(BareAll(ids), name);
    BareNamesMembers(keys, ids, id);
  }

  lemma IncludingIds(keys: set<string>, ids: seq<string>, key: string, id: string)
    requires AxfrSound(keys, ids)
    ensures id in CanonicalAll(Including(BareAll(ids), key)) <==> id in ids || id == Canonical(key)
  {
    hide Canonical, Bare;
    CanonicalAllMembers(Including(BareAll(ids), key), id);
    BareNamesMembers(keys, ids, id);
    assert key in Including(BareAll(ids), key);
    assert forall n :: n in Including(BareAll(ids), key) <==> n in BareAll(ids) || n == key;
  }

  /** Releasing a key deletes it exactly if nothing references it, and no other. */
  lemma ReleasedEffect(cfg: Config, s: Store, name: string)
    requires Consistent(cfg, s) && (Tidy(name) || cfg.IsGlobal(name))
    ensures var t := Released(s, name);
            && t.zones == s.zones && OnlyKey(s, t, Canonical(name))
            && (Canonical(name) in t.keys <==> Canonical(name) in s.keys && Referenced(t, Canonical(name)))
  {
    hide Canonical, Bare, InUse, Referenced, Consistent, NoDangling, Tidy, Config.IsGlobal;
    ConsistentNoDangling(cfg, s);
    ReferencedOfZones(s, Released(s, name), Canonical(name));
    if Tidy(name) {
      InUseIsReferenced(s, name);
    } else {
      GlobalInUse(cfg, s, name);
      GlobalReferenced(cfg, s, name);
    }
  }

  lemma GlobalReferenced(cfg: Config, s: Store, name: string)
    requires Consistent(cfg, s) && cfg.IsGlobal(name)
    ensures Referenced(s, Canonical(name))
  {
    hide Canonical, Bare, IsId, IsBareName;
    assert DependsOn(s.zones[cfg.catalog], Canonical(name));
  }

  /** Deleting a transfer key takes exactly that id off the zone's list, changes no other field and
      no other zone, deletes the key exactly if nothing references it any more, and no other. */
  lemma KeyDeleteEffect(cfg: Config, s: Store, zone: string, name: string)
    requires Consistent(cfg, s) && zone in s.zones && zone != cfg.catalog && (Tidy(name) || cfg.IsGlobal(name))
    ensures var t, id := Completed(cfg, s, KeyDelete(zone, name)), Canonical(name);
            && OnlyZone(s, t, zone) && t.zones[zone] == s.zones[zone].(axfr := t.zones[zone].axfr)
            && (forall i :: i in t.zones[zone].axfr <==> i in s.zones[zone].axfr && i != id)
            && OnlyKey(s, t, id)
            && (id in t.keys <==> id in s.keys && Referenced(t, id))
  {
    hide Canonical, Bare, Consistent, Referenced, Tidy, Config.IsGlobal, CanonicalAll, Without, BareAll, Released, AxfrSound, UpdateSound;
    var rec := s.zones[zone].(axfr := CanonicalAll(Without(BareAll(s.zones[zone].axfr), name)));
    ZoneSound(cfg, s, zone);
    WithoutKeySound(s.keys, s.zones[zone].axfr, name);
    AxfrWriteKept(cfg, s, zone, rec);
    ReleasedEffect(cfg, s.Put(zone, rec), name);
    forall i ensures i in rec.axfr <==> i in s.zones[zone].axfr && i != Canonical(name) {
      WithoutIds(s.keys, s.zones[zone].axfr, name, i);
    }
  }

  /** Adding a transfer key puts exactly its id on the zone's list and into the key store. */
  lemma KeyAddEffect(cfg: Config, s: Store, zone: string, name: string)
    requires Consistent(cfg, s) && zone in s.zones && ValidKeyName(KeyNameOf(name))
    ensures var t, id := Completed(cfg, s, KeyAdd(zone, name)), KeyNameOf(name) + ".";
            && OnlyZone(s, t, zone) && t.zones[zone] == s.zones[zone].(axfr := t.zones[zone].axfr)
            && (forall i :: i in t.zones[zone].axfr <==> i in s.zones[zone].axfr || i == id)
            && t.keys == s.keys + {id}
  {
    hide Canonical, Bare, Lower, Consistent, CanonicalAll, Including, BareAll, AxfrSound, UpdateSound, KeyNameOf;
    hide ValidKeyName, IsBareName, IsId;
    var key := KeyNameOf(name);
    ValidKeyNameIsBare(key);
    BareKeyId(key);
    ZoneSound(cfg, s, zone);
    forall i ensures i in CanonicalAll(Including(BareAll(s.zones[zone].axfr), key)) <==> i in s.zones[zone].axfr || i == key + "." {
      IncludingIds(s.keys, s.zones[zone].axfr, key, i);
    }
  }

  /** A key name may be typed in any case, with blanks around it and dots behind it. */
  lemma KeyNameRead(front: string, spelled: string, dots: string, back: string)
    requires ValidKeyName(Lower(spelled))
    requires (forall c :: c in front + back ==> IsSpace(c)) && forall c :: c in dots ==> c == '.'
    ensures KeyNameOf(front + spelled + dots + back) == Lower(spelled)
  {
    var t, low := spelled + dots, Lower(spelled);
    LowerKeepsSpaces(spelled);
    assert !IsSpace('.') && !IsSpace(low[0]) && !IsSpace(low[|low| - 1]);
    assert t[0] == spelled[0] && (dots != "" ==> t[|t| - 1] in dots) && (dots == "" ==> t == spelled);
    assert front + spelled + dots + back == front + t + back;
    hide IsSpace, ValidKeyName;
    TrimAround(front, t, back, IsSpace);
    TrimAround("", spelled, dots, IsDot);
  }

  // ---- update keys -------------------------------------------------------------------------

  /** Update access with the given keys: the ranges are kept while a key is listed, with the open
      catch-all standing for none, and both lists are empty without one. */
  predicate AccessKept(before: Zone, after: Zone) {
    && after == before.(updateKeys := after.updateKeys, updateFrom := after.updateFrom)
    && (after.updateKeys == [] ==> after.updateFrom == [])
    && (after.updateKeys != [] ==> after.updateFrom != [] && UserRanges(after.updateFrom) == UserRanges(before.updateFrom))
  }

  lemma CatchAll()
    ensures UserRanges(UPDATE_ANY) == [] == UserRanges([])
  {
    assert AsSet([]) != AsSet(UPDATE_ANY) by { assert UPDATE_ANY[0] in AsSet(UPDATE_ANY); }
  }

  /** Bare names written as update keys are written as they are. */
  lemma SetKeysEffect(s: Store, zone: string, names: seq<string>)
    requires zone in s.zones && forall n :: n in names ==> IsBareName(n)
    ensures var t := AfterSetKeys(s, zone, names);
            && t.keys == s.keys && OnlyZone(s, t, zone) && AccessKept(s.zones[zone], t.zones[zone])
            && t.zones[zone].updateKeys == names
  {
    CatchAll();
    LowerBareIsIdentity(names);
    hide LowerBareAll, IsBareName;
  }

  /** Adding an update key lists exactly it besides the earlier ones, keeps the ranges, and puts it
      into the key store. */
  lemma UpdateKeyAddEffect(cfg: Config, s: Store, zone: string, name: string)
    requires Consistent(cfg, s) && zone in s.zones && ValidKeyName(KeyNameOf(name))
    ensures var t, key := Completed(cfg, s, UpdateKeyAdd(zone, name)), KeyNameOf(name);
            && OnlyZone(s, t, zone) && AccessKept(s.zones[zone], t.zones[zone])
            && (forall u :: u in t.zones[zone].updateKeys <==> u in s.zones[zone].updateKeys || u == key)
            && t.keys == s.keys + {key + "."}
  {
    hide Canonical, Bare, Lower, Consistent, BareAll, AxfrSound, UpdateSound, KeyNameOf, ValidKeyName, AfterSetKeys, AccessKept;
    hide IsBareName, IsId;
    var key, before := KeyNameOf(name), s.zones[zone].updateKeys;
    ValidKeyNameIsBare(key);
    BareKeyId(key);
    ZoneSound(cfg, s, zone);
    BareAllIsIdentity(s.keys, before);
    AllBare(s.keys, before);
    SetKeysEffect(Store(s.keys + {key + "."}, s.zones), zone, Including(before, key));
  }

  lemma AllBare(keys: set<string>, names: seq<string>)
    requires UpdateSound(keys, names)
    ensures forall u :: u in names ==> IsBareName(u)
  {
    hide IsBareName;
  }

  lemma WithoutUpdateKeys(keys: set<string>, names: seq<string>, name: string)
    requires UpdateSound(keys, names)
    ensures UpdateSound(keys, Without(names, name))
    ensures forall u :: u in Without(names, name) <==> u in names && u + "." != Canonical(name)
  {
    WithoutMembers(names, name);
    forall u | u in names ensures Canonical(u) == u + "." { BareNameFacts(u); }
    hide Canonical, Bare, IsBareName;
  }

  /** The first half of an update-key delete. */
  lemma UpdateKeyUnlisted(cfg: Config, s: Store, zone: string, name: string)
    requires Consistent(cfg, s) && zone in s.zones
    ensures var t := AfterSetKeys(s, zone, Without(s.UpdateKeysOf(zone), name));
            && Consistent(cfg, t) && t.keys == s.keys
            && OnlyZone(s, t, zone) && AccessKept(s.zones[zone], t.zones[zone])
            && (forall u :: u in t.zones[zone].updateKeys <==> u in s.zones[zone].updateKeys && u + "." != Canonical(name))
  {
    var before := s.zones[zone].updateKeys;
    ZoneSound(cfg, s, zone);
    BareAllIsIdentity(s.keys, before);
    WithoutUpdateKeys(s.keys, before, name);
    var kept := Without(before, name);
    assert forall u :: u in kept ==> IsBareName(u);
    hide Canonical, Bare, Consistent, BareAll, Without, AxfrSound, AfterSetKeys, AccessKept, IsBareName;
    SetKeysEffect(s, zone, kept);
    var t := AfterSetKeys(s, zone, kept);
    PutOf(s, t, zone);
    AccessOnly(s.zones[zone], t.zones[zone]);
    OtherWriteKept(cfg, s, zone, t.zones[zone]);
  }

  /** Deleting an update key takes exactly that one off the zone's list, keeps the ranges while
      another is left, deletes the key exactly if nothing references it any more, and no other. */
  lemma UpdateKeyDeleteEffect(cfg: Config, s: Store, zone: string, name: string)
    requires Consistent(cfg, s) && zone in s.zones && (Tidy(name) || cfg.IsGlobal(name))
    ensures var t, id := Completed(cfg, s, UpdateKeyDelete(zone, name)), Canonical(name);
            && OnlyZone(s, t, zone) && AccessKept(s.zones[zone], t.zones[zone])
            && (forall u :: u in t.zones[zone].updateKeys <==> u in s.zones[zone].updateKeys && u + "." != id)
            && OnlyKey(s, t, id)
            && (id in t.keys <==> id in s.keys && Referenced(t, id))
  {
    hide Canonical, Bare, Tidy, Config.IsGlobal, Consistent, Without, Store.UpdateKeysOf, AfterSetKeys, AccessKept, Released, Referenced;
    UpdateKeyUnlisted(cfg, s, zone, name);
    var t := AfterSetKeys(s, zone, Without(s.UpdateKeysOf(zone), name));
    if cfg.IsGlobal(name) {
      GlobalReferenced(cfg, t, name);
      GlobalStored(cfg, s, name);
    } else {
      ReleasedEffect(cfg, t, name);
    }
  }

  lemma PutOf(s: Store, t: Store, zone: string)
    requires OnlyZone(s, t, zone) && zone in s.zones && t.keys == s.keys
    ensures t == s.Put(zone, t.zones[zone])
  {
    assert t.zones == s.zones[zone := t.zones[zone]];
  }

  lemma AccessOnly(before: Zone, after: Zone)
    requires AccessKept(before, after)
    ensures after.axfr == before.axfr
  {
  }

  lemma GlobalStored(cfg: Config, s: Store, name: string)
    requires Consistent(cfg, s) && cfg.IsGlobal(name)
    ensures Canonical(name) in s.keys
  {
    hide Canonical, Bare, IsId, IsBareName;
  }

  /** Setting ranges changes them alone, and only while a key is listed. */
  lemma UpdateIpsEffect(cfg: Config, s: Store, zone: string, ranges: seq<string>)
    requires Consistent(cfg, s) && zone in s.zones
    ensures var t := Completed(cfg, s, UpdateIps(zone, ranges));
            var after := t.zones[zone];
            && t.keys == s.keys && OnlyZone(s, t, zone) && after == s.zones[zone].(updateFrom := after.updateFrom)
            && (after.updateKeys == [] ==> after.updateFrom == [])
            && (after.updateKeys != [] ==> after.updateFrom != [] && UserRanges(after.updateFrom) == UserRanges(ranges))
  {
    CatchAll();
    ZoneSound(cfg, s, zone);
    BareAllIsIdentity(s.keys, s.zones[zone].updateKeys);
    LowerBareIsIdentity(s.zones[zone].updateKeys);
    hide Canonical, Bare, Consistent, BareAll, LowerBareAll, IsBareName;
  }

  // ---- creation, modes and targets ---------------------------------------------------------

  /** The transfer list is the primary key's id, or nothing without one. */
  ghost predicate PrimaryOnly(cfg: Config, ids: seq<string>) {
    forall i :: i in ids <==> cfg.primary != "" && i == Canonical(cfg.primary)
  }

  /** The transfer list is the ids of the primary and the extra keys. */
  ghost predicate AllGlobals(cfg: Config, ids: seq<string>) {
    forall i :: i in ids <==> (cfg.primary != "" && i == Canonical(cfg.primary)) || exists e :: e in cfg.extras && Canonical(e) == i
  }

  lemma PrimaryIds(cfg: Config)
    ensures PrimaryOnly(cfg, CanonicalAll(cfg.Primaries()))
  {
    hide Canonical, CanonicalAll;
    forall i ensures i in CanonicalAll(cfg.Primaries()) <==> cfg.primary != "" && i == Canonical(cfg.primary) {
      CanonicalAllMembers(cfg.Primaries(), i);
    }
  }

  lemma AllGlobalIds(cfg: Config)
    ensures AllGlobals(cfg, CanonicalAll(cfg.Globals()))
    ensures cfg.Globals() == [] <==> cfg.primary == "" && cfg.extras == []
  {
    hide Canonical, CanonicalAll;
    var all := cfg.Primaries() + cfg.extras;
    forall i ensures i in CanonicalAll(cfg.Globals()) <==>
                     (cfg.primary != "" && i == Canonical(cfg.primary)) || exists e :: e in cfg.extras && Canonical(e) == i
    {
      CanonicalAllMembers(cfg.Globals(), i);
      assert forall e :: e in cfg.Globals() <==> e in all;
    }
    if cfg.Globals() == [] {
      assert forall e :: e !in all;
    }
  }

  /** A created zone is a Master without update access or notify list, a custom one outside the
      catalog with the primary key, any other in the catalog with every global key. */
  lemma CreateEffect(cfg: Config, s: Store, zone: string, custom: bool)
    requires zone !in s.zones
    ensures var t := Completed(cfg, s, Create(zone, custom));
            && t.keys == s.keys && t.zones.Keys == s.zones.Keys + {zone}
            && (forall z :: z in s.zones ==> t.zones[z] == s.zones[z])
            && t.zones[zone] == Zone(Master, if custom then "" else cfg.catalog, t.zones[zone].axfr, [], [], [])
            && (if custom then PrimaryOnly(cfg, t.zones[zone].axfr) else AllGlobals(cfg, t.zones[zone].axfr))
  {
    PrimaryIds(cfg);
    AllGlobalIds(cfg);
    hide Canonical, CanonicalAll, Config.Globals, Config.Primaries;
  }

  /** Custom mode takes the zone out of the catalog and leaves it the primary key. */
  lemma ModeCustomEffect(cfg: Config, s: Store, zone: string)
    requires zone in s.zones
    ensures var t := Completed(cfg, s, ModeCustom(zone));
            && t.keys == s.keys && OnlyZone(s, t, zone)
            && t.zones[zone] == s.zones[zone].(catalog := "", axfr := t.zones[zone].axfr)
            && PrimaryOnly(cfg, t.zones[zone].axfr)
  {
    PrimaryIds(cfg);
    hide Canonical, CanonicalAll, Config.Primaries;
  }

  /** The store of catalog mode before keys are cleaned up. */
  lemma BackInCatalog(cfg: Config, s: Store, zone: string)
    requires Consistent(cfg, s) && cfg.Valid() && zone in s.zones && zone != cfg.catalog
    ensures var rec := s.zones[zone].(catalog := cfg.catalog, kind := Master, alsoNotify := []);
            var u := WithGlobals(cfg, s.Put(zone, rec), zone);
            && Consistent(cfg, u) && u.keys == s.keys && OnlyZone(s, u, zone)
            && u.zones[zone] == rec.(axfr := u.zones[zone].axfr)
            && (if cfg.primary == "" && cfg.extras == [] then u.zones[zone].axfr == rec.axfr
                else AllGlobals(cfg, u.zones[zone].axfr))
  {
    hide Canonical, Bare, CanonicalAll, Config.Globals, Config.Valid, Consistent, AxfrSound, UpdateSound, AllGlobals;
    AllGlobalIds(cfg);
    ZoneSound(cfg, s, zone);
    GlobalsSound(cfg, s, cfg.Globals());
    var rec := s.zones[zone].(catalog := cfg.catalog, kind := Master, alsoNotify := []);
    OtherWriteKept(cfg, s, zone, rec);
    var u := WithGlobals(cfg, s.Put(zone, rec), zone);
    if u != s.Put(zone, rec) {
      AxfrWriteKept(cfg, s.Put(zone, rec), zone, u.zones[zone]);
    }
  }

  /** Catalog mode puts the zone back: Master, no notify list, every global key if there is one.
      A key goes exactly if it is a former one of the zone, not global and no longer referenced. */
  lemma ModeCatalogEffect(cfg: Config, s: Store, zone: string, id: string)
    requires Consistent(cfg, s) && cfg.Valid() && zone in s.zones && zone != cfg.catalog
    ensures var t := Completed(cfg, s, ModeCatalog(zone));
            && OnlyZone(s, t, zone)
            && t.zones[zone] == s.zones[zone].(catalog := cfg.catalog, kind := Master, alsoNotify := [], axfr := t.zones[zone].axfr)
            && (if cfg.primary == "" && cfg.extras == [] then t.zones[zone].axfr == s.zones[zone].axfr
                else AllGlobals(cfg, t.zones[zone].axfr))
            && (id in t.keys <==> id in s.keys && !(id in s.zones[zone].axfr && !cfg.IsGlobalId(id) && !Referenced(t, id)))
  {
    hide Canonical, Consistent, Config.Valid, WithGlobals, BareAll, Orphans, Config.IsGlobalId, Referenced, AllGlobals;
    hide AxfrSound, UpdateSound;
    BackInCatalog(cfg, s, zone);
    ZoneSound(cfg, s, zone);
    var rec := s.zones[zone].(catalog := cfg.catalog, kind := Master, alsoNotify := []);
    var u := WithGlobals(cfg, s.Put(zone, rec), zone);
    OrphansAre(cfg, u, s.keys, s.zones[zone].axfr, id);
    ReferencedOfZones(u, Completed(cfg, s, ModeCatalog(zone)), id);
  }

  /** The orphans among stored ids: neither global nor referenced. */
  lemma OrphansAre(cfg: Config, s: Store, keys: set<string>, ids: seq<string>, id: string)
    requires Consistent(cfg, s) && AxfrSound(keys, ids)
    ensures id in Orphans(cfg, s, BareAll(ids)) <==> id in ids && !cfg.IsGlobalId(id) && !Referenced(s, id)
  {
    BareIdsTidy(keys, ids);
    BareNamesMembers(keys, ids, id);
    ConsistentNoDangling(cfg, s);
    forall k | k in BareAll(ids) ensures InUse(s, k) <==> Referenced(s, Canonical(k)) {
      hide Canonical, Bare, InUse, Referenced, NoDangling, Tidy;
      InUseIsReferenced(s, k);
    }
    hide Canonical, Bare, BareAll, InUse, Referenced, NoDangling, Consistent, Config.IsGlobalId;
  }

  /** Targets set the notify list and the kind, and nothing else. */
  lemma NotifyTargetsEffect(cfg: Config, s: Store, zone: string, targets: seq<string>)
    requires zone in s.zones
    ensures var t := Completed(cfg, s, NotifyTargets(zone, targets));
            && t.keys == s.keys && OnlyZone(s, t, zone)
            && t.zones[zone] == s.zones[zone].(alsoNotify := targets, kind := t.zones[zone].kind)
            && (t.zones[zone].kind == Native <==> targets != []) && (targets == [] ==> t.zones[zone].kind == Master)
  {
  }

  // ---- catalog membership over runs --------------------------------------------------------

  /** A request that completes at `s` and decides whether `zone` is in the catalog. */
  predicate SetsMode(s: Store, r: Request, zone: string) {
    r.zone == zone && (if zone in s.zones then r.ModeCustom? || r.ModeCatalog? else r.Create?)
  }

  predicate PutsInCatalog(r: Request) {
    r.ModeCatalog? || (r.Create? && !r.custom)
  }

  lemma ModeAfter(cfg: Config, s: Store, r: Request, zone: string)
    ensures var t := Completed(cfg, s, r);
            if SetsMode(s, r, zone) then
              zone in t.zones && t.zones[zone].catalog == if PutsInCatalog(r) then cfg.catalog else ""
            else zone in t.zones ==> zone in s.zones && t.zones[zone].catalog == s.zones[zone].catalog
  {
    hide Canonical, Bare, InUse, Orphans, CanonicalAll, BareAll, FormerKeys, Without, LowerBareAll, Config.IsGlobal, KeyNameOf;
  }

  /** The last of the first `n` requests that decides about the zone, if any does. */
  ghost function LastMode(cfg: Config, s: Store, requests: seq<Request>, zone: string): Mode {
    if requests == [] then Undecided
    else
      var n := |requests| - 1;
      if SetsMode(RunOf(cfg, s, requests[..n]), requests[n], zone) then Decided(requests[n])
      else LastMode(cfg, s, requests[..n], zone)
  }

  datatype Mode = Undecided | Decided(request: Request)

  /** After any run of completed requests a zone is in the catalog exactly if the last create or
      mode request for it put it there; without such a request it is where it was. */
  lemma {:induction false} CatalogExactly(cfg: Config, s: Store, requests: seq<Request>, zone: string)
    requires cfg.catalog != "" && zone in RunOf(cfg, s, requests).zones
    ensures var now, last := RunOf(cfg, s, requests).zones[zone].catalog, LastMode(cfg, s, requests, zone);
            if last.Decided? then
              (now == cfg.catalog <==> PutsInCatalog(last.request)) && (now == "" <==> !PutsInCatalog(last.request))
            else zone in s.zones && now == s.zones[zone].catalog
  {
    if requests != [] {
      var n := |requests| - 1;
      var before := RunOf(cfg, s, requests[..n]);
      ModeAfter(cfg, before, requests[n], zone);
      hide Completed, SetsMode;
      if !SetsMode(before, requests[n], zone) {
        CatalogExactly(cfg, s, requests[..n], zone);
      }
    }
  }
}
