/** The zone, transfer-key, dynamic-update and notify handlers (app/mojodns/routers/zones.py).
    Each is a sequence of PowerDNS calls that stops at the first failure. Each is specified
    twice: by the store it leaves when it completes, and by the invariant that holds after
    every one of its writes whether it completes or not. */
module ZoneHandlers {
  import opened Text
  import opened KeyStore
  import opened PdnsClient

  // ---- what completed handlers do ----------------------------------------------------------

  function AfterCreate(cfg: Config, s: Store, zone: string, custom: bool): Store
    requires zone !in s.zones
  {
    if custom then
      s.Put(zone, Zone(Master, "", CanonicalAll(cfg.Primaries()), [], [], []))
    else
      WithGlobals(cfg, s.Put(zone, Zone(Master, cfg.catalog, [], [], [], [])), zone)
  }

  function AfterModeCustom(cfg: Config, s: Store, zone: string): Store
    requires zone in s.zones
  {
    s.Put(zone, s.zones[zone].(catalog := "", axfr := CanonicalAll(cfg.Primaries())))
  }

  /** Drop the orphaned keys among `former`. */
  function Cleaned(cfg: Config, s: Store, former: seq<string>): Store {
    Store(s.keys - Orphans(cfg, s, former), s.zones)
  }

  function AfterModeCatalog(cfg: Config, s: Store, zone: string): Store
    requires zone in s.zones
  {
    var rec := s.zones[zone].(catalog := cfg.catalog, kind := Master, alsoNotify := []);
    Cleaned(cfg, WithGlobals(cfg, s.Put(zone, rec), zone), BareAll(s.zones[zone].axfr))
  }

  function AfterKeyAdd(s: Store, zone: string, key: string): Store
    requires zone in s.zones
  {
    var rec := s.zones[zone];
    Store(s.keys + {Bare(key) + "."}, s.zones[zone := rec.(axfr := CanonicalAll(Including(BareAll(rec.axfr), key)))])
  }

  /** Delete the key unless something references it. */
  function Released(s: Store, name: string): Store {
    if InUse(s, name) then s else Store(s.keys - {Canonical(name)}, s.zones)
  }

  function AfterKeyDelete(s: Store, zone: string, name: string): Store
    requires zone in s.zones
  {
    var rec := s.zones[zone];
    Released(s.Put(zone, rec.(axfr := CanonicalAll(Without(BareAll(rec.axfr), name)))), name)
  }

  function AfterSetKeys(s: Store, zone: string, keys: seq<string>): Store {
    if zone in s.zones then
      s.Put(zone, Written(s.zones[zone], SetKeys(keys)))
    else s
  }

  function AfterSetIps(s: Store, zone: string, ranges: seq<string>): Store {
    if zone in s.zones then
      s.Put(zone, Written(s.zones[zone], SetIps(ranges)))
    else s
  }

  function AfterUpdateKeyAdd(s: Store, zone: string, key: string): Store {
    var t := Store(s.keys + {Bare(key) + "."}, s.zones);
    AfterSetKeys(t, zone, Including(s.UpdateKeysOf(zone), key))
  }

  function AfterUpdateKeyDelete(cfg: Config, s: Store, zone: string, name: string): Store {
    var t := AfterSetKeys(s, zone, Without(s.UpdateKeysOf(zone), name));
    if cfg.IsGlobal(name) then t else Released(t, name)
  }

  function AfterNotifyTargets(s: Store, zone: string, targets: seq<string>): Store
    requires zone in s.zones
  {
    s.Put(zone, s.zones[zone].(alsoNotify := targets, kind := if targets != [] then Native else Master))
  }

  /** The keys a zone delete sets out to clean up. */
  function FormerKeys(cfg: Config, s: Store, zone: string): seq<string>
    requires zone in s.zones
  {
    var axfr := NonGlobal(cfg, BareAll(s.zones[zone].axfr));
    axfr + NotAmong(axfr, NonGlobal(cfg, s.UpdateKeysOf(zone)))
  }

  function NonGlobal(cfg: Config, names: seq<string>): seq<string> {
    if names == [] then []
    else (if cfg.IsGlobal(names[0]) then [] else [names[0]]) + NonGlobal(cfg, names[1..])
  }

  function NotAmong(others: seq<string>, names: seq<string>): seq<string> {
    if names == [] then []
    else (if exists o :: o in others && Canonical(o) == Canonical(names[0]) then [] else [names[0]])
         + NotAmong(others, names[1..])
  }

  function AfterDelete(cfg: Config, s: Store, zone: string): Store
    requires zone in s.zones
  {
    Cleaned(cfg, Store(s.keys, s.zones - {zone}), FormerKeys(cfg, s, zone))
  }

  // ---- the handlers ------------------------------------------------------------------------

  /** Custom read of the notify list, then PowerDNS's own notify unless the list is non-empty. */
  method NotifyZone(pdns: Client, zone: string) returns (st: Status)
    modifies pdns`faults, pdns`failures
    ensures !st.Rejected?
    ensures old(pdns.failures) <= pdns.failures
    ensures pdns.failures == old(pdns.failures) && zone in pdns.store.zones ==> st.Done?
  {
    st := pdns.Ask(true);
    if st.Done? && pdns.store.AlsoNotifyOf(zone) == [] {
      st := pdns.Ask(zone in pdns.store.zones);
    }
  }

  method ZoneCreate(pdns: Client, zone: string, custom: bool) returns (st: Status)
    requires pdns.cfg.Valid()
    modifies pdns
    ensures st.Done? ==> zone !in old(pdns.store).zones
    ensures st.Done? ==> pdns.store == AfterCreate(pdns.cfg, old(pdns.store), zone, custom)
    ensures old(pdns.Good()) ==> pdns.Good()
  {
    hide Canonical, Consistent, IsId, Config.Globals, Config.Primaries, CanonicalAll, AxfrSound;
    var cfg := pdns.cfg;
    ghost var s, good := pdns.store, pdns.Good();
    if zone in pdns.store.zones {
      st := pdns.Ask(false);
      return;
    }
    var rec := Zone(Master, if custom then "" else cfg.catalog, [], [], [], []);
    if good {
      NewZoneKept(cfg, s, zone, rec);
      CatalogExists(cfg, s);
    }
    :- pdns.Write(pdns.store.Put(zone, rec));
    if custom {
      if good { PrimariesSound(cfg, pdns.store); }
      st := pdns.SetTsigKeys(zone, cfg.Primaries());
    } else {
      st := pdns.EnsureAxfr(zone);
    }
  }

  lemma CatalogExists(cfg: Config, s: Store)
    requires Consistent(cfg, s)
    ensures cfg.catalog in s.zones
  {
  }

  lemma PrimariesSound(cfg: Config, s: Store)
    requires cfg.Valid() && Consistent(cfg, s)
    ensures AxfrSound(s.keys, CanonicalAll(cfg.Primaries()))
  {
    hide Canonical, IsId;
    GlobalsSound(cfg, s, cfg.Primaries());
  }

  lemma ZoneSound(cfg: Config, s: Store, zone: string)
    requires Consistent(cfg, s) && zone in s.zones
    ensures AxfrSound(s.keys, s.zones[zone].axfr) && UpdateSound(s.keys, s.zones[zone].updateKeys)
  {
  }

  method ZoneModeCustom(pdns: Client, zone: string) returns (st: Status)
    requires pdns.cfg.Valid()
    modifies pdns
    ensures st.Done? ==> zone in old(pdns.store).zones
    ensures st.Done? ==> pdns.store == AfterModeCustom(pdns.cfg, old(pdns.store), zone)
    ensures old(pdns.Good()) && zone != pdns.cfg.catalog ==> pdns.Good()
  {
    hide Canonical, Consistent, IsId, Config.Primaries, CanonicalAll, AxfrSound, UpdateSound;
    var cfg := pdns.cfg;
    ghost var good := pdns.Good();
    if zone !in pdns.store.zones {
      st := pdns.Ask(false);
      return;
    }
    if good { ZoneSound(cfg, pdns.store, zone); }
    :- pdns.SetFields(zone, pdns.store.zones[zone].(catalog := ""));
    if good { PrimariesSound(cfg, pdns.store); }
    st := pdns.SetTsigKeys(zone, cfg.Primaries());
  }

  /** Delete each of the `former` keys that is not global and that no zone references. A
      `tolerant` caller skips the keys that PowerDNS reports an error for. Whatever fails, only
      orphaned keys go; if no call fails, all of them do. */
  method DropOrphans(pdns: Client, former: seq<string>, tolerant: bool) returns (st: Status)
    modifies pdns
    ensures !st.Rejected? && (tolerant ==> !st.PdnsError?)
    ensures old(pdns.failures) <= pdns.failures
    ensures old(pdns.faults) == [] ==> pdns.faults == [] && pdns.failures == old(pdns.failures)
    ensures pdns.store.zones == old(pdns.store).zones
    ensures var s := old(pdns.store); s.keys - Orphans(pdns.cfg, s, former) <= pdns.store.keys <= s.keys
    ensures st.Done? && !tolerant ==> pdns.store == Cleaned(pdns.cfg, old(pdns.store), former)
    ensures pdns.failures == old(pdns.failures) && tolerant ==>
              st.Done? && pdns.store == Cleaned(pdns.cfg, old(pdns.store), former)
    ensures old(pdns.Good()) && (forall k :: k in former ==> Tidy(k)) ==> pdns.Good()
  {
    hide Canonical, Consistent, Bare, Referenced, InUse, Config.IsGlobal, Tidy;
    var cfg := pdns.cfg;
    ghost var s, good := pdns.store, pdns.Good() && forall k :: k in former ==> Tidy(k);
    st := Done;
    assert Orphans(cfg, s, []) == {};
    for i := 0 to |former|
      invariant st.Done?
      invariant pdns.store.zones == s.zones
      invariant old(pdns.failures) <= pdns.failures
      invariant old(pdns.faults) == [] ==> pdns.faults == [] && pdns.failures == old(pdns.failures)
      invariant s.keys - Orphans(cfg, s, former[..i]) <= pdns.store.keys <= s.keys
      invariant !tolerant || pdns.failures == old(pdns.failures) ==> pdns.store == Cleaned(cfg, s, former[..i])
      invariant good ==> pdns.Good()
    {
      var k := former[i];
      OrphansSnoc(cfg, s, former, i);
      OrphansGrow(cfg, s, former, i + 1);
      if !cfg.IsGlobal(k) {
        var used;
        st, used := pdns.TsigKeyInUse(k);
        InUseOfZones(pdns.store, s, k);
        if st.Done? && !used {
          if good { UnusedIsUnreferenced(cfg, pdns.store, k); }
          st := pdns.DeleteTsigKey(k);
        }
        if st.PdnsError? && tolerant {
          st := Done;
        }
        if !st.Done? { return; }
      }
    }
    assert former[..|former|] == former;
  }

  lemma OrphansGrow(cfg: Config, s: Store, former: seq<string>, n: nat)
    requires n <= |former|
    ensures Orphans(cfg, s, former[..n]) <= Orphans(cfg, s, former)
  {
    hide Canonical, InUse, Config.IsGlobal;
    assert forall k :: k in former[..n] ==> k in former;
  }

  lemma InUseOfZones(s: Store, t: Store, name: string)
    requires s.zones == t.zones
    ensures InUse(s, name) == InUse(t, name)
  {
    hide Canonical, Bare;
  }

  lemma UnusedIsUnreferenced(cfg: Config, s: Store, name: string)
    requires Consistent(cfg, s) && Tidy(name) && !InUse(s, name)
    ensures !Referenced(s, Canonical(name))
  {
    hide Canonical, Bare, InUse, Referenced;
    InUseIsReferenced(s, name);
  }

  lemma OrphansSnoc(cfg: Config, s: Store, former: seq<string>, i: nat)
    requires i < |former|
    ensures var k := former[i];
            Orphans(cfg, s, former[..i + 1]) ==
            Orphans(cfg, s, former[..i]) + (if !cfg.IsGlobal(k) && !InUse(s, k) then {Canonical(k)} else {})
  {
    hide Canonical, InUse, Config.IsGlobal;
    assert former[..i + 1] == former[..i] + [former[i]];
  }

  method ZoneModeCatalog(pdns: Client, zone: string) returns (st: Status)
    requires pdns.cfg.Valid()
    modifies pdns
    ensures st.Done? ==> zone in old(pdns.store).zones
    ensures st.Done? ==> pdns.store == AfterModeCatalog(pdns.cfg, old(pdns.store), zone)
    ensures old(pdns.Good()) && zone != pdns.cfg.catalog ==> pdns.Good()
  {
    hide Canonical, Consistent, IsId, CanonicalAll, AxfrSound, UpdateSound, Bare, Orphans, Tidy, Config.Globals;
    var cfg := pdns.cfg;
    ghost var s, good := pdns.store, pdns.Good() && zone != cfg.catalog;
    var former;
    st, former := pdns.ZoneTsigKeys(zone);
    if !st.Done? { return; }
    if good {
      ZoneSound(cfg, s, zone);
      FormerTidy(s.keys, s.zones[zone].axfr);
    }
    :- pdns.SetFields(zone, pdns.store.zones[zone].(catalog := cfg.catalog));
    :- pdns.SetFields(zone, pdns.store.zones[zone].(kind := Master));
    :- pdns.DropFields(zone, pdns.store.zones[zone].(alsoNotify := []));
    assert pdns.store == s.Put(zone, s.zones[zone].(catalog := cfg.catalog, kind := Master, alsoNotify := []));
    :- pdns.EnsureAxfr(zone);
    :- DropOrphans(pdns, former, false);
    st := NotifyZone(pdns, zone);
  }

  lemma FormerTidy(keys: set<string>, ids: seq<string>)
    requires AxfrSound(keys, ids)
    ensures forall k :: k in BareAll(ids) ==> Tidy(k)
  {
    hide Canonical, Bare;
    BareIdsTidy(keys, ids);
  }

  /** The key name a form field stands for. */
  function KeyNameOf(name: string): string {
    Lower(Bare(Strip(name)))
  }

  method ZoneKeyAdd(pdns: Client, zone: string, name: string) returns (st: Status)
    modifies pdns
    ensures !ValidKeyName(KeyNameOf(name)) <==> st.Rejected?
    ensures st.Rejected? ==> pdns.store == old(pdns.store)
    ensures st.Done? ==> zone in old(pdns.store).zones
    ensures st.Done? ==> pdns.store == AfterKeyAdd(old(pdns.store), zone, KeyNameOf(name))
    ensures old(pdns.Good()) && zone != pdns.cfg.catalog ==> pdns.Good()
  {
    var key := KeyNameOf(name);
    if !ValidKeyName(key) { return Rejected; }
    ValidKeyNameIsBare(key);
    st := AddTransferKey(pdns, zone, key);
  }

  method AddTransferKey(pdns: Client, zone: string, key: string) returns (st: Status)
    requires IsBareName(key) && IsId(key + ".") && Canonical(key) == key + "."
    modifies pdns
    ensures !st.Rejected?
    ensures st.Done? ==> zone in old(pdns.store).zones
    ensures st.Done? ==> pdns.store == AfterKeyAdd(old(pdns.store), zone, key)
    ensures old(pdns.Good()) && zone != pdns.cfg.catalog ==> pdns.Good()
  {
    hide Canonical, Consistent, IsId, CanonicalAll, AxfrSound, UpdateSound, Bare, Tidy, BareAll;
    ghost var good := pdns.Good() && zone != pdns.cfg.catalog;
    :- pdns.CreateTsigKey(key);
    ghost var s := pdns.store;
    var keys;
    st, keys := pdns.ZoneTsigKeys(zone);
    if !st.Done? { return; }
    if good {
      ZoneSound(pdns.cfg, s, zone);
      WithKeySound(s.keys, s.zones[zone].axfr, key);
    }
    st := pdns.SetTsigKeys(zone, Including(keys, key));
  }

  lemma WithKeySound(keys: set<string>, ids: seq<string>, key: string)
    requires AxfrSound(keys, ids) && IsId(key + ".") && Canonical(key) == key + "." && key + "." in keys
    ensures AxfrSound(keys, CanonicalAll(Including(BareAll(ids), key)))
  {
    hide Canonical, Bare, IsId;
    BareIdsTidy(keys, ids);
    forall k | k in Including(BareAll(ids), key) ensures IsId(Canonical(k)) && Canonical(k) in keys {}
    CanonicalAllSound(keys, Including(BareAll(ids), key));
  }

  method ZoneKeyDelete(pdns: Client, zone: string, name: string) returns (st: Status)
    modifies pdns
    ensures st.Rejected? <==> pdns.cfg.primary != "" && Canonical(name) == Canonical(pdns.cfg.primary)
    ensures st.Rejected? ==> pdns.store == old(pdns.store)
    ensures st.Done? ==> zone in old(pdns.store).zones
    ensures st.Done? ==> pdns.store == AfterKeyDelete(old(pdns.store), zone, name)
    ensures old(pdns.Good()) && zone != pdns.cfg.catalog && (Tidy(name) || pdns.cfg.IsGlobal(name)) ==> pdns.Good()
  {
    hide Canonical, Consistent, IsId, CanonicalAll, AxfrSound, UpdateSound, Bare, Tidy, BareAll, InUse, Referenced;
    if pdns.cfg.primary != "" && Canonical(name) == Canonical(pdns.cfg.primary) { return Rejected; }
    ghost var s, good := pdns.store, pdns.Good() && zone != pdns.cfg.catalog;
    var keys;
    st, keys := pdns.ZoneTsigKeys(zone);
    if !st.Done? { return; }
    if good {
      ZoneSound(pdns.cfg, s, zone);
      WithoutKeySound(s.keys, s.zones[zone].axfr, name);
    }
    :- pdns.SetTsigKeys(zone, Without(keys, name));
    st := ReleaseKey(pdns, name);
  }

  /** Delete the key unless some zone mentions it. */
  method ReleaseKey(pdns: Client, name: string) returns (st: Status)
    modifies pdns
    ensures !st.Rejected?
    ensures st.Done? ==> pdns.store == Released(old(pdns.store), name)
    ensures old(pdns.Good()) && (Tidy(name) || pdns.cfg.IsGlobal(name)) ==> pdns.Good()
  {
    hide Canonical, Consistent, Tidy, InUse, Referenced, Config.IsGlobal;
    var used;
    st, used := pdns.TsigKeyInUse(name);
    if !st.Done? || used { return; }
    if pdns.Good() && Tidy(name) { UnusedIsUnreferenced(pdns.cfg, pdns.store, name); }
    if pdns.Good() && pdns.cfg.IsGlobal(name) { GlobalInUse(pdns.cfg, pdns.store, name); }
    st := pdns.DeleteTsigKey(name);
  }

  lemma WithoutKeySound(keys: set<string>, ids: seq<string>, name: string)
    requires AxfrSound(keys, ids)
    ensures AxfrSound(keys, CanonicalAll(Without(BareAll(ids), name)))
  {
    hide Canonical, Bare, IsId;
    BareIdsTidy(keys, ids);
    WithoutMembers(BareAll(ids), name);
    CanonicalAllSound(keys, Without(BareAll(ids), name));
  }

  // ---- dynamic updates ---------------------------------------------------------------------

  method WriteUpdateAccess(pdns: Client, zone: string, keys: seq<string>, ranges: seq<string>) returns (st: Status)
    modifies pdns
    ensures !st.Rejected?
    ensures pdns.store.keys == old(pdns.store).keys
    ensures st.Done? && zone in old(pdns.store).zones ==>
              pdns.store == old(pdns.store).Put(zone, WithAccess(old(pdns.store).zones[zone], keys, ranges))
    ensures st.Done? && zone !in old(pdns.store).zones ==> keys == [] && pdns.store == old(pdns.store)
    ensures old(pdns.Good()) && UpdateSound(old(pdns.store).keys, LowerBareAll(keys)) ==> pdns.Good()
  {
    hide Canonical, Consistent, Bare, LowerBareAll, UpdateSound;
    ghost var s, good := pdns.store, pdns.Good() && UpdateSound(pdns.store.keys, LowerBareAll(keys));
    if zone !in pdns.store.zones {
      st := pdns.Ask(keys == []);
      return;
    }
    if keys != [] {
      :- pdns.SetFields(zone, pdns.store.zones[zone].(updateKeys := LowerBareAll(keys)));
      :- pdns.SetFields(zone, pdns.store.zones[zone].(updateFrom := if ranges != [] then ranges else UPDATE_ANY));
    } else {
      if good { NoKeysSound(s.keys); }
      :- pdns.DropFields(zone, pdns.store.zones[zone].(updateKeys := []));
      :- pdns.DropFields(zone, pdns.store.zones[zone].(updateFrom := []));
    }
    assert pdns.store == s.Put(zone, WithAccess(s.zones[zone], keys, ranges));
    st := Done;
  }

  lemma NoKeysSound(keys: set<string>)
    ensures UpdateSound(keys, [])
  {
  }

  method SetZoneUpdateKeys(pdns: Client, zone: string, names: seq<string>) returns (st: Status)
    modifies pdns
    ensures !st.Rejected?
    ensures pdns.store.keys == old(pdns.store).keys
    ensures st.Done? ==> pdns.store == AfterSetKeys(old(pdns.store), zone, names)
    ensures old(pdns.Good()) && UpdateSound(old(pdns.store).keys, LowerBareAll(names)) ==> pdns.Good()
  {
    hide Canonical, Consistent, Bare, LowerBareAll, UpdateSound, UserRanges, WithAccess;
    var ranges;
    st, ranges := pdns.ZoneUpdateIps(zone);
    if !st.Done? { return; }
    st := WriteUpdateAccess(pdns, zone, names, ranges);
  }

  /** The address ranges arrive parsed and canonical. */
  method ZoneUpdateIps(pdns: Client, zone: string, ranges: seq<string>) returns (st: Status)
    modifies pdns
    ensures !st.Rejected?
    ensures st.Done? ==> pdns.store == AfterSetIps(old(pdns.store), zone, ranges)
    ensures old(pdns.Good()) ==> pdns.Good()
  {
    hide Canonical, Consistent, Bare, LowerBareAll, UpdateSound, WithAccess, BareAll;
    var keys;
    st, keys := pdns.ZoneUpdateKeys(zone);
    if !st.Done? { return; }
    if pdns.Good() { StoredKeysSound(pdns.cfg, pdns.store, zone); }
    st := WriteUpdateAccess(pdns, zone, keys, ranges);
  }

  /** The names read back from a consistent store are the stored ones, and sound to write again. */
  lemma StoredKeysSound(cfg: Config, s: Store, zone: string)
    requires Consistent(cfg, s)
    ensures UpdateSound(s.keys, s.UpdateKeysOf(zone)) && LowerBareAll(s.UpdateKeysOf(zone)) == s.UpdateKeysOf(zone)
  {
    hide Canonical, Bare;
    if zone in s.zones {
      BareAllIsIdentity(s.keys, s.zones[zone].updateKeys);
      LowerBareIsIdentity(s.zones[zone].updateKeys);
    } else {
      LowerBareIsIdentity([]);
    }
  }

  method ZoneUpdateKeyAdd(pdns: Client, zone: string, name: string) returns (st: Status)
    modifies pdns
    ensures !ValidKeyName(KeyNameOf(name)) <==> st.Rejected?
    ensures st.Rejected? ==> pdns.store == old(pdns.store)
    ensures st.Done? ==> pdns.store == AfterUpdateKeyAdd(old(pdns.store), zone, KeyNameOf(name))
    ensures old(pdns.Good()) ==> pdns.Good()
  {
    var key := KeyNameOf(name);
    if !ValidKeyName(key) { return Rejected; }
    ValidKeyNameIsBare(key);
    st := AddUpdateKey(pdns, zone, key);
  }

  method AddUpdateKey(pdns: Client, zone: string, key: string) returns (st: Status)
    requires IsBareName(key)
    modifies pdns
    ensures !st.Rejected?
    ensures st.Done? ==> pdns.store == AfterUpdateKeyAdd(old(pdns.store), zone, key)
    ensures old(pdns.Good()) ==> pdns.Good()
  {
    hide Canonical, Consistent, Bare, LowerBareAll, UpdateSound, BareAll, AfterSetKeys, Tidy, IsBareName;
    ghost var good := pdns.Good();
    if good { BareKeyId(key); }
    :- pdns.CreateTsigKey(key);
    var keys;
    st, keys := pdns.ZoneUpdateKeys(zone);
    if !st.Done? { return; }
    if good {
      StoredKeysSound(pdns.cfg, pdns.store, zone);
      WithUpdateKeySound(pdns.store.keys, keys, key);
    }
    st := SetZoneUpdateKeys(pdns, zone, Including(keys, key));
  }

  lemma BareKeyId(key: string)
    requires IsBareName(key)
    ensures Bare(key) + "." == key + "."
  {
  }

  lemma WithUpdateKeySound(keys: set<string>, names: seq<string>, key: string)
    requires UpdateSound(keys, names) && IsBareName(key) && key + "." in keys
    ensures UpdateSound(keys, LowerBareAll(Including(names, key)))
  {
    hide Canonical, Bare, IsBareName;
    LowerBareIsIdentity(Including(names, key));
  }

  method ZoneUpdateKeyDelete(pdns: Client, zone: string, name: string) returns (st: Status)
    modifies pdns
    ensures !st.Rejected?
    ensures st.Done? ==> pdns.store == AfterUpdateKeyDelete(pdns.cfg, old(pdns.store), zone, name)
    ensures old(pdns.Good()) && (Tidy(name) || pdns.cfg.IsGlobal(name)) ==> pdns.Good()
  {
    hide Canonical, Consistent, Bare, LowerBareAll, UpdateSound, BareAll, AfterSetKeys, Tidy, Released, Config.IsGlobal;
    var keys;
    st, keys := pdns.ZoneUpdateKeys(zone);
    if !st.Done? { return; }
    if pdns.Good() {
      StoredKeysSound(pdns.cfg, pdns.store, zone);
      WithoutUpdateKeySound(pdns.store.keys, keys, name);
    }
    :- SetZoneUpdateKeys(pdns, zone, Without(keys, name));
    if !pdns.cfg.IsGlobal(name) {
      st := ReleaseKey(pdns, name);
    }
  }

  lemma WithoutUpdateKeySound(keys: set<string>, names: seq<string>, name: string)
    requires UpdateSound(keys, names)
    ensures UpdateSound(keys, LowerBareAll(Without(names, name)))
  {
    hide Canonical, Bare, IsBareName;
    WithoutMembers(names, name);
    LowerBareIsIdentity(Without(names, name));
  }

  // ---- notify targets and zone deletion ----------------------------------------------------

  /** The targets arrive parsed and validated. */
  method ZoneNotifyTargets(pdns: Client, zone: string, targets: seq<string>) returns (st: Status)
    modifies pdns
    ensures !st.Rejected?
    ensures st.Done? ==> zone in old(pdns.store).zones
    ensures st.Done? ==> pdns.store == AfterNotifyTargets(old(pdns.store), zone, targets)
    ensures old(pdns.Good()) ==> pdns.Good()
  {
    hide Canonical, Consistent, UpdateSound, AxfrSound;
    ghost var s := pdns.store;
    if zone !in pdns.store.zones {
      st := pdns.Ask(targets == []);
      if st.Done? { st := pdns.Ask(false); }
      return;
    }
    if pdns.Good() { ZoneSound(pdns.cfg, s, zone); }
    var rec := pdns.store.zones[zone].(alsoNotify := targets);
    if targets != [] {
      :- pdns.SetFields(zone, rec);
    } else {
      :- pdns.DropFields(zone, rec);
    }
    st := pdns.SetFields(zone, rec.(kind := if targets != [] then Native else Master));
    assert st.Done? ==> pdns.store == AfterNotifyTargets(s, zone, targets);
  }

  /** The keys a delete of `zone` may remove. */
  function DeletableKeys(cfg: Config, s: Store, zone: string): set<string> {
    if zone in s.zones then Orphans(cfg, Store(s.keys, s.zones - {zone}), FormerKeys(cfg, s, zone)) else {}
  }

  /** A delete completes in spite of errors about single keys, and when the former keys cannot be
      read. Whatever fails, no key is lost that is not an orphan of the zone; orphans stay behind
      only if some call failed. */
  method ZoneDelete(pdns: Client, zone: string) returns (st: Status)
    modifies pdns
    ensures !st.Rejected?
    ensures old(pdns.failures) <= pdns.failures
    ensures old(pdns.faults) == [] ==> pdns.faults == [] && pdns.failures == old(pdns.failures)
    ensures st.Done? ==> zone in old(pdns.store).zones && pdns.store.zones == old(pdns.store).zones - {zone}
    ensures pdns.store.zones == old(pdns.store).zones || pdns.store.zones == old(pdns.store).zones - {zone}
    ensures var s := old(pdns.store); s.keys - DeletableKeys(pdns.cfg, s, zone) <= pdns.store.keys <= s.keys
    ensures zone in pdns.store.zones ==> pdns.store == old(pdns.store)
    ensures st.PdnsError? ==> pdns.store.keys == old(pdns.store).keys
    ensures pdns.failures == old(pdns.failures) && zone in old(pdns.store).zones ==>
              st.Done? && pdns.store == AfterDelete(pdns.cfg, old(pdns.store), zone)
    ensures old(pdns.Good()) && zone != pdns.cfg.catalog ==> pdns.Good()
  {
    hide Canonical, Consistent, Bare, BareAll, Tidy, Orphans, AxfrSound, UpdateSound, InUse, Referenced, NonGlobal, NotAmong;
    var cfg := pdns.cfg;
    ghost var s, good := pdns.store, pdns.Good() && zone != cfg.catalog;
    ghost var rest := Store(s.keys, s.zones - {zone});
    NoOrphans(cfg, rest);
    var former: seq<string> := [];
    var axfr, keys;
    st, axfr := pdns.ZoneTsigKeys(zone);
    if st.Broken? { return; }
    if st.Done? {
      st, keys := pdns.ZoneUpdateKeys(zone);
      if st.Broken? { return; }
      if st.Done? {
        var own := NonGlobal(cfg, axfr);
        former := own + NotAmong(own, NonGlobal(cfg, keys));
        assert former == FormerKeys(cfg, s, zone);
        if good { FormerKeysTidy(cfg, s, zone); }
      }
    }
    if zone !in pdns.store.zones {
      st := pdns.Ask(false);
      return;
    }
    if good { ZoneDeleteKept(cfg, pdns.store, zone); }
    :- pdns.Write(Store(pdns.store.keys, pdns.store.zones - {zone}));
    st := DropOrphans(pdns, former, true);
  }

  lemma NoOrphans(cfg: Config, s: Store)
    ensures Orphans(cfg, s, []) == {}
  {
  }

  lemma {:induction false} NonGlobalMembers(cfg: Config, names: seq<string>)
    ensures forall k :: k in NonGlobal(cfg, names) <==> k in names && !cfg.IsGlobal(k)
  {
    hide Canonical, Config.IsGlobal;
    if names != [] {
      NonGlobalMembers(cfg, names[1..]);
    }
  }

  lemma {:induction false} NotAmongMembers(others: seq<string>, names: seq<string>)
    ensures forall k :: k in NotAmong(others, names) ==> k in names
    ensures forall k :: k in names ==>
              k in NotAmong(others, names) || exists o :: o in others && Canonical(o) == Canonical(k)
  {
    hide Canonical;
    if names != [] {
      NotAmongMembers(others, names[1..]);
    }
  }

  lemma FormerKeysTidy(cfg: Config, s: Store, zone: string)
    requires Consistent(cfg, s) && zone in s.zones
    ensures forall k :: k in FormerKeys(cfg, s, zone) ==> Tidy(k)
  {
    hide Canonical, Bare, Config.IsGlobal;
    var axfr := BareAll(s.zones[zone].axfr);
    var own := NonGlobal(cfg, axfr);
    BareIdsTidy(s.keys, s.zones[zone].axfr);
    StoredKeysSound(cfg, s, zone);
    NonGlobalMembers(cfg, axfr);
    NonGlobalMembers(cfg, s.UpdateKeysOf(zone));
    NotAmongMembers(own, NonGlobal(cfg, s.UpdateKeysOf(zone)));
  }
}
