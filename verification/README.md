# Verified model of the mojodns control panel

mojodns is a control panel over PowerDNS. This project models the parts of it that keep state,
count, or parse and print, and proves what they promise over every input and every run:

- `ReSign`, `ReSignRuns`: the DNSSEC re-sign sweep. A sweep restarts the timer of every signed zone
  whose serial moved and re-writes the SOA of quiet, due zones up to a cap. The run results bound
  how often and how late a zone is re-signed, whatever PowerDNS calls or commits fail.
- `KeyStore`, `PdnsClient`, `ZoneHandlers`, `PanelRuns`, `PanelEffects`, `UpdateGate`: zones, TSIG keys, transfer and
  dynamic-update permissions and notify lists. Handlers are sequences of PowerDNS calls that can
  be cut short anywhere; the invariants hold after every single write.
- `Records`, `EditForm`: read-modify-write editing of rrsets, against a flat set of records, and the
  edit form's split and rebuild.
- `Txt`, `Spf`, `SpfTerms`, `SpfRecord`, `SpfJs`, `SpfMeaning`: TXT quoting, the two SPF parsers and
  printers, which terms and records are accepted, and what the SPF warnings are worth under RFC 7208.
- `RateLimit`: the sliding-window limiter. `ReRoot`: importing a zone under another name.
  `Catalog`: the catalog merge on a shared NSD. `FormLists`: comma-separated form lists.
- `Text`, `Wrappers`: string operations and optional values.

Code that changes state is a class with methods (`Scheduler`, `Client`, `ZoneRecords`, `Limiter`,
`Host`); each method is tied to a specification function, and the results are lemmas about those.
The clock, PowerDNS's answers, the fate of each call and of each commit, and transferred data are
inputs. Foreign libraries appear as given functions: the SHA-256 digest behind the jitter, address
and IDNA codecs, integer syntax of ports, the comparison of a sender with an SPF mechanism.

Assumptions of the run results on the scheduler: zone names are distinct; PowerDNS lists serials,
never lowers one, and raises it when an SOA is re-written; every signed zone has an SOA; the clock
does not go back. A sweep whose zone list cannot be read changes nothing, so only sweeps with a
list are counted. The gap between sweeps includes the time a sweep takes.

## Where the code and its comments differ

- The cap is described as a hard ceiling (app/mojodns/resign.py:29-30), but only completed bumps
  count against it: `CeilingExactly`, `CeilingBroken`.
- The in-use test for a TSIG key compares update keys without lower-casing the name it is given:
  `InUseExactly`, `UpdateKeyDeleteExactly`, `TransferKeyDeleteExactly`; concretely `InUseBroken`,
  `KeyDeleteBroken`.
- Editing a record by a name that is not canonical overwrites the whole rrset of the canonical name, also
  when the name comes from a host field with a space behind its leading dots: `EditByNameExactly`,
  `FormNamesExactly`; concretely `DeleteByNameBroken`, `UpdateByNameBroken`, `SpacedHostBroken`.
- A stored TTL of 0 is replaced by the default when a record beside others is removed: `EditTtls`;
  concretely `ZeroTtlBroken`.
- A move of a record whose second write fails loses the record: `MoveCutShort`.
- "exp" after "all" is reported as never evaluated, but a receiver still uses it to explain a fail; and a
  repeated "exp" is accepted: `ExplanationKeptExactly`, `VerdictKeptExactly`; concretely `LateExpBroken`,
  `RepeatedExpBroken`.
- Lookup terms after "all" count towards the limit of ten, though no receiver reaches them:
  `LimitFreeExactly`; concretely `LateLookupsBroken`.
- A valid record may hold quotes behind a macro; the record built from its terms is then read as a
  quoted string: `RecordRoundTripExactly`, `BrowserRecordExactly`; concretely `QuotingRecordBroken`.
- The advertised wait can fall short by less than a millisecond: `RetrySufficesExactly`, `RetryCanBeShort`.
- A zone file whose origin has capitals or letters outside ASCII cannot be imported under its own name:
  `ImportSucceedsExactly`; concretely `SpelledOriginBroken`.
- The catalog script takes every pointer below "zones" for a member, only warns about a schema version it
  does not know, and finds no member when the catalog is configured with capitals:
  `MembersByStandardExactly`; concretely `StrayPointerListed`, `OldVersionListed`, `CapitalCatalogBroken`.

## Model

| member | source | states |
|---|---|---|
| ReSign.JitterSeconds | app/mojodns/resign.py:33-39 | the offset is the digest modulo a positive maximum: non-negative, below it and of the same remainder; zero without one |
| ReSign.CapIsCeiling | app/mojodns/resign.py:30 | the cap is the number of signed zones divided by forty, rounded up, and never less than one |
| ReSign.Scheduler.BumpSerial | app/mojodns/resign.py:57-66 | a bump fails exactly when a call it needs fails, and may have re-written the SOA all the same |
| ReSign.Scheduler.VisitZone | app/mojodns/resign.py:83-103 | one zone of the loop: new, reset, wait, capped, or attempted with every outcome of its calls |
| ReSign.Scheduler.ResignDueZones | app/mojodns/resign.py:69-113 | a sweep leaves the specified table (the old one without a commit), report and SOA re-writes, and reports fewer than 1 + n/40 of n signed zones |
| ReSignRuns.ZoneOutcome | app/mojodns/resign.py:83-103 | everything a sweep does to one zone; a due quiet zone whose bump goes through is passed over only once a fortieth of the signed zones or more are bumped |
| ReSignRuns.ZoneRules | app/mojodns/resign.py:77-103 | the rules for one signed zone spelled out on its row: new or moved, waiting, or due, when it is touched and which row it gets |
| ReSignRuns.UncommittedKeepsTable | app/mojodns/resign.py:104-110 | a sweep without a commit leaves the table as it was |
| ReSignRuns.ReportBounded | app/mojodns/resign.py:77-96 | a sweep reports distinct signed zones, fewer than 1 + n/40 of n, none of an empty list, and re-writes no zone twice |
| ReSignRuns.TableHoldsSignedZones | app/mojodns/resign.py:104-108 | after a committed sweep the table's keys are exactly the signed zones |
| ReSignRuns.RewritesSpaced | app/mojodns/resign.py:9-12 | any two SOA re-writes of a zone in a run are at least the quiet period apart, with any failures in between |
| ReSignRuns.NoRewriteSoonAfterChange | app/mojodns/resign.py:9-11 | no zone is bumped or re-written within the quiet period of a change the sweeps saw, committed or not |
| ReSignRuns.FullWindow | app/mojodns/resign.py:77-96 | forty sweeps within a quiet period that each use up the cap bump as many different zones as are signed |
| ReSignRuns.NoStarvation | app/mojodns/resign.py:77-103 | a due zone whose own bump goes through is bumped in that sweep or one of the next 39, or its serial moves; any list order, any other failures |
| ReSignRuns.FreshnessDeadline | app/mojodns/resign.py:42-54 | a zone seen to change at t is bumped or changes again before t + quiet + jitter + 40 sweep gaps |
| ReSignRuns.FreshnessWithDefaults | app/mojodns/config.py:77-82 | with the shipped settings that deadline is 47 hours |
| ReSignRuns.CeilingExactly | app/mojodns/resign.py:29-30 | SOA re-writes stay within the cap for all answers of PowerDNS if and only if no more zones than the cap are due |
| ReSignRuns.CeilingBroken | app/mojodns/resign.py:94-103 | two due zones under a cap of one, both re-written and none reported when notifies fail |
| KeyStore.ValidKeyNameExactly | app/mojodns/routers/zones.py:328 | the key-name pattern takes exactly the names whose every label is one of letters, digits and inner hyphens |
| KeyStore.ValidKeyNameIsBare | app/mojodns/routers/zones.py:327-328 | names the key-name pattern accepts are their own bare, lower-case and canonical spelling |
| KeyStore.InUseIsReferenced | app/mojodns/pdns.py:349-365 | for a tidily spelled name the in-use test holds exactly when some zone references the key |
| KeyStore.InUseExactly | app/mojodns/pdns.py:355-364 | the in-use test is exact on all consistent stores if and only if the name is tidy or global |
| KeyStore.InUseBroken | app/mojodns/pdns.py:355-364 | a consistent store where key "FOO" is in use and the test denies it |
| PdnsClient.KeyDeleteKeptExactly | app/mojodns/pdns.py:346-347 | deleting a key leaves nothing dangling if and only if no zone references it |
| PdnsClient.Client.Write | app/mojodns/pdns.py:80-90 | a call is answered, answered with an error, or not answered; it takes effect in the first case and may in the others, and keeps the invariant if the intended store has it |
| PdnsClient.Client.SetTsigKeys | app/mojodns/pdns.py:300-311 | sets exactly the canonical ids of the given names, fails on a missing zone |
| PdnsClient.Client.DropFields | app/mojodns/pdns.py:236-241 | deleting metadata that is not there is not an error |
| PdnsClient.Client.TsigKeyInUse | app/mojodns/pdns.py:349-365 | the zone-by-zone loop answers whether any zone mentions the key |
| PdnsClient.Client.EnsureAxfr | app/mojodns/pdns.py:313-317 | every global key may transfer the zone, unless there are none |
| ZoneHandlers.ZoneCreate | app/mojodns/routers/zones.py:128-139 | completed: the zone with the keys of its mode; cut short anywhere: no dangling key |
| ZoneHandlers.ZoneModeCustom | app/mojodns/routers/zones.py:269-271 | completed: out of the catalog with the primary key only; no dangling key at any point |
| ZoneHandlers.ZoneModeCatalog | app/mojodns/routers/zones.py:275-286 | completed: back in the catalog, Master, no notify list, global keys, orphans deleted; no dangling key at any point |
| ZoneHandlers.DropOrphans | app/mojodns/routers/zones.py:281-285 | whatever calls fail, removes no key but orphans among the former keys, and a tolerant caller gets no PowerDNS error; all orphans if no call fails or an intolerant caller completes |
| ZoneHandlers.ZoneKeyAdd | app/mojodns/routers/zones.py:322-343 | rejects exactly malformed names; adds the key once; no dangling key at any point |
| ZoneHandlers.ZoneKeyDelete | app/mojodns/routers/zones.py:346-362 | refuses the primary; drops the reference and, if unused, the key; no dangling key for tidy or global names |
| ZoneHandlers.ZoneUpdateKeyAdd | app/mojodns/routers/zones.py:367-388 | adds an update key and keeps the ranges; no dangling key at any point |
| ZoneHandlers.ZoneUpdateKeyDelete | app/mojodns/routers/zones.py:391-406 | drops the reference and, if not global and unused, the key; no dangling key for tidy or global names |
| ZoneHandlers.ZoneUpdateIps | app/mojodns/routers/zones.py:409-431 | sets the ranges while a key is set, and nothing otherwise |
| ZoneHandlers.WriteUpdateAccess | app/mojodns/pdns.py:277-290 | completed, both metadata entries are written, or both removed without a key |
| ZoneHandlers.ZoneNotifyTargets | app/mojodns/routers/zones.py:296-312 | completed: the list is set and the kind follows it |
| ZoneHandlers.ZoneDelete | app/mojodns/routers/zones.py:716-740 | whatever calls fail, no key goes but orphans of the zone, and none at all without the zone; completes unless the delete itself fails; if no call fails all orphans go; no dangling key at any point |
| PanelRuns.Handle | app/mojodns/routers/zones.py:264-406 | each proper request keeps the invariant at every write; completed means the specified store, and for a delete in which calls failed, the zone gone and no key lost but its orphans |
| PanelRuns.Serve | app/mojodns/routers/zones.py:92-406 | over any sequence of proper requests with any call failing, no zone ever references a missing key, in any intermediate store |
| PanelRuns.FormerKeysExactly | app/mojodns/routers/zones.py:720-728 | the keys a delete sets aside are exactly the non-global ones its zone references |
| PanelRuns.DeleteLosesOnlyOrphans | app/mojodns/routers/zones.py:716-740 | however a delete completes, with any failed calls, a key that is gone was referenced by that zone, is not global and is referenced by no other zone |
| PanelRuns.DeleteCleansUp | app/mojodns/routers/zones.py:716-740 | after a delete in which no call failed the zone alone is gone, and a non-global key it referenced survives exactly if another zone references it; no other key is lost |
| PanelRuns.UpdateKeyDeleteExactly | app/mojodns/routers/zones.py:395-401 | deleting an update key in an existing ordinary zone never leaves a dangling key, whatever the store, if and only if the name is tidy or global |
| PanelRuns.TransferKeyDeleteExactly | app/mojodns/routers/zones.py:354-357 | the same, for transfer keys |
| PanelRuns.KeyDeleteBroken | app/mojodns/routers/zones.py:346-406 | deleting key "FOO" in one zone, for transfers or updates, leaves another zone with a deleted key "foo" |
| PanelRuns.OneSenderExactly | app/mojodns/routers/zones.py:264-319 | from any store, also one an interrupted handler left, a zone has exactly one sender of NOTIFY after a run of completed requests if and only if it had one before, or a request of the run created it, put it in catalog mode or set its targets |
| PanelEffects.KeyDeleteEffect | app/mojodns/routers/zones.py:354-357 | after a completed delete of a transfer key the zone lists exactly its earlier ids but that one, no other field or zone changes, and the key is still stored exactly if it was and something references it; no other key comes or goes |
| PanelEffects.KeyAddEffect | app/mojodns/routers/zones.py:327-337 | after an add the zone lists exactly its earlier ids and the new one, which is stored; nothing else changes |
| PanelEffects.KeyNameRead | app/mojodns/routers/zones.py:327 | a key name typed in any case, with blanks around it and dots behind it, is read as its lower-case name |
| PanelEffects.UpdateKeyAddEffect | app/mojodns/routers/zones.py:372-382 | the same for an update key; the ranges stay |
| PanelEffects.UpdateKeyDeleteEffect | app/mojodns/routers/zones.py:395-401 | the same as for a transfer key; the ranges stay while a key is left and go with the last |
| PanelEffects.UpdateIpsEffect | app/mojodns/routers/zones.py:409-431 | setting ranges changes them alone, and only while a key is listed |
| PanelEffects.CreateEffect | app/mojodns/routers/zones.py:128-139 | a created zone is a Master, outside the catalog with the primary key, or in it with the ids of all global keys; no other zone or key changes |
| PanelEffects.ModeCustomEffect | app/mojodns/routers/zones.py:269-271 | the zone is out of the catalog and lists the primary key only; nothing else changes |
| PanelEffects.ModeCatalogEffect | app/mojodns/routers/zones.py:275-286 | the zone is back in the catalog as a Master without notify list, with the global keys; a key goes exactly if the zone listed it, it is not global and nothing references it |
| PanelEffects.NotifyTargetsEffect | app/mojodns/routers/zones.py:303-311 | targets set the notify list and the kind, Native exactly with targets, and nothing else |
| PanelEffects.CatalogExactly | app/mojodns/routers/zones.py:128-286 | after any run of completed requests a zone is in the catalog exactly if the last create or mode request that decided about it put it there, or it was there before and none did |
| UpdateGate.GateRefinesSettings | app/mojodns/pdns.py:253-298 | after any completed key and range changes an update is admitted exactly when a key is set, it is signed by a listed key and comes from the user's ranges, or none are set; and the form reads both back |
| UpdateGate.RangesSurvive | app/mojodns/pdns.py:271-275 | ranges read back as written after any key changes that leave a key, the open catch-all as none |
| FormLists.ParseList | app/mojodns/notifier.py:59-72 | the loop returns the distinct checked entries in order, or the first bad token |
| FormLists.EntriesAre | app/mojodns/pdns.py:22-32 | a parsed list holds each checked token exactly once |
| FormLists.FirstBadToken | app/mojodns/pdns.py:22-32 | parsing fails exactly when some token is bad, and names the first |
| FormLists.TargetsAccepted | app/mojodns/notifier.py:59-72 | which targets are kept, as typed: hosts and addresses alone, with an integer port, in brackets, or with many colons |
| FormLists.TargetsRoundTrip | app/mojodns/notifier.py:59-72 | the list shown joined by ", " parses to the same duplicate-free list |
| FormLists.RangesRoundTrip | app/mojodns/pdns.py:16-32 | the same for source ranges, given that printed networks parse to themselves |
| FormLists.BareForm | app/mojodns/notifier.py:46-48 | a bare host is read as that host without a port |
| FormLists.PortForm | app/mojodns/notifier.py:44-45 | host:port is read as its two parts |
| FormLists.BracketedSixForm | app/mojodns/notifier.py:41-43 | a bracketed IPv6 address with a port is read as its two parts |
| FormLists.BracketsForm | app/mojodns/notifier.py:41-43 | a bracketed address may stand without a port |
| FormLists.ManyColonsForm | app/mojodns/notifier.py:44-48 | an address with two colons or more is read as that address without a port |
| Records.ZoneRecords.RecordCreate | app/mojodns/routers/zones.py:499-522 | the rrsets after a create |
| Records.ZoneRecords.RecordUpdate | app/mojodns/routers/zones.py:546-582 | the rrsets after an update in place or a move, also when only the first of a move's two writes takes effect |
| Records.ZoneRecords.RecordDelete | app/mojodns/routers/zones.py:585-603 | the rrsets after a delete |
| Records.ZoneRecords.SpfSave | app/mojodns/routers/zones.py:468-488 | the rrsets after an SPF save; a record with errors is not saved |
| Records.EditRefines | app/mojodns/routers/zones.py:446-451 | one edit by canonical names is an insertion or removal on the flat set, disabled flags included, and keeps contents distinct and no rrset empty |
| Records.EditsRefine | app/mojodns/routers/zones.py:499-603 | so is any sequence of edits |
| Records.OtherRrsetsUntouched | app/mojodns/pdns.py:136-148 | every rrset of another name or type stays as it was |
| Records.DeleteByNameExactly | app/mojodns/routers/zones.py:595-598 | deleting removes just the one record if and only if the name is canonical or the rrset held no other |
| Records.EditByNameExactly | app/mojodns/routers/zones.py:446-598 | for every create, update, delete and SPF save by any names: it does what it means by the names it writes to if and only if no other record sits in an rrset it overwrites unread |
| Records.DeleteByNameBroken | app/mojodns/routers/zones.py:595-598 | deleting one of two records by a name in capitals deletes both |
| Records.UpdateByNameBroken | app/mojodns/routers/zones.py:564-576 | updating one of two records by a name in capitals loses the other |
| Records.MoveCutShort | app/mojodns/routers/zones.py:571-576 | a move whose second write fails has removed the record and nothing else |
| Records.SavedSpfReadsBack | app/mojodns/routers/zones.py:469-488 | after saving any valid record the zone holds a content that parses to the saved terms, whatever quotes it has; the record built from those parses to them too if and only if it holds no complete quoted string |
| Records.EditTtls | app/mojodns/routers/zones.py:565-576 | adding sets the TTL of the rrset; removing keeps it if and only if it is not 0 or equals the default |
| Records.ZeroTtlBroken | app/mojodns/routers/zones.py:595-598 | deleting one of two records with TTL 0 gives the other a TTL of 3600 |
| EditForm.BuildIsFixpoint | app/mojodns/dnsutil.py:26-52 | splitting built content and building again gives the same content, for every type, data and priority |
| EditForm.HostContent | app/mojodns/dnsutil.py:31-32 | the content of an alias, name server or pointer is the trimmed host, with one dot added exactly if it ends in none |
| EditForm.MailContent | app/mojodns/dnsutil.py:33-34 | taken apart, the content of a mail exchanger is the priority given, 0 without one, and that host |
| EditForm.ServiceContent | app/mojodns/dnsutil.py:35-40 | taken apart, the content of a service record is the priority given, 0 without one, and the fields of the data, the last one as a host |
| EditForm.TextContent | app/mojodns/dnsutil.py:29-30 | the content of a text record unquotes to its trimmed text, unless that looks quoted; then it is that text |
| EditForm.PlainDataContent | app/mojodns/dnsutil.py:41 | the content of every other type is its trimmed data |
| EditForm.IntOfShow | app/mojodns/dnsutil.py:44-52 | a printed priority reads back as itself |
| EditForm.NameRoundTripExactly | app/mojodns/routers/zones.py:27-41 | reading back the shown name of a clean in-zone owner gives the owner if and only if it is the apex or its relative part is not "@" |
| EditForm.FqdnOfClean | app/mojodns/routers/zones.py:37-41 | the owner name is the zone for "@" or nothing, and the host in front of the zone otherwise |
| EditForm.HasSuffixExactly | app/mojodns/routers/zones.py:32 | the suffix test holds exactly for a text followed by the suffix |
| EditForm.RelNameOfClean | app/mojodns/routers/zones.py:27-34 | the name shown is "@" for the apex, the relative part below the zone, and the full name elsewhere |
| EditForm.UnchangedSaveKeepsExactly | app/mojodns/routers/zones.py:546-576 | for any stored record in the zone, saving the unchanged form leaves the flat set of records as it was, but for enabling that record, if and only if its relative name is not "@" and building the content taken apart gives that content |
| EditForm.UnchangedSaveBroken | app/mojodns/dnsutil.py:26-52 | a stored alias without its trailing dot comes back with one |
| EditForm.AtSignBroken | app/mojodns/routers/zones.py:27-41 | the owner "@.z." of zone "z." is read back as the apex |
| Text.CanonicalTwiceExactly | app/mojodns/pdns.py:41-43 | making a name canonical twice is the same as once if and only if no space is left in front once spaces and then dots are stripped |
| EditForm.FqdnCanonicalExactly | app/mojodns/routers/zones.py:37-41 | the owner name made from a host field is canonical if and only if the host is the apex or no space follows the dots at its front |
| EditForm.FormNamesExactly | app/mojodns/routers/zones.py:469-603 | a record or SPF form edits by canonical names if and only if it is well spelled |
| EditForm.FormsRefine | app/mojodns/routers/zones.py:499-603 | any sequence of well-spelled forms inserts and removes on the flat set what it says |
| EditForm.SpacedHostBroken | app/mojodns/routers/zones.py:511-517 | creating a record under host ". . .x" of zone "z." loses the records of "x.z." |
| Txt.BodyIsUnique | app/mojodns/spf.py:39 | the scan finds the only way the quoted-string pattern can match |
| Txt.TxtRoundTripExactly | app/mojodns/dnsutil.py:19-23 | unquoting undoes quoting if and only if the text is trimmed and either not quoted-looking or without a complete quoted string |
| Txt.QuotedTextBroken | app/mojodns/dnsutil.py:19-23 | a quoted text comes back without its quotes |
| Txt.StripOfQuote | app/mojodns/spf.py:35-42 | unquoting a quoted text gives the trimmed text, through the scan and both replacements |
| Txt.AdjacentJoined | app/mojodns/spf.py:35-42 | unquoting any quoted texts side by side gives their concatenation |
| Txt.QuoteTxtIsQuoted | app/mojodns/dnsutil.py:19-23 | quoting yields a quoted text and is idempotent |
| Spf.RenderReparsesExactly | app/mojodns/spf.py:168-177 | rendering a recognised term and parsing it gives it back if and only if it is not a bare prefix with a colon, which is never valid |
| Spf.TermRoundTrip | app/mojodns/spf.py:99-122 | every token accepted without error re-parses from its rendering to the same qualifier, kind and value, without error |
| SpfTerms.Ip4Accepted | app/mojodns/spf.py:63-70 | "ip4" is accepted exactly with an address the IPv4 reader takes |
| SpfTerms.Ip6Accepted | app/mojodns/spf.py:71-78 | "ip6" is accepted exactly with an address the IPv6 reader takes |
| SpfTerms.AllAccepted | app/mojodns/spf.py:57-58 | "all" is accepted exactly without a value |
| SpfTerms.DomainAccepted | app/mojodns/spf.py:59-62 | "include" and "exists" are accepted exactly with a valid domain |
| SpfTerms.ModifierAccepted | app/mojodns/spf.py:59-104 | "redirect" and "exp" are accepted exactly with a valid domain |
| SpfTerms.HostAccepted | app/mojodns/spf.py:79-95 | "a", "mx" and "ptr" are accepted exactly bare, with a valid domain, a prefix length, or both |
| SpfTerms.LengthAccepted | app/mojodns/spf.py:93-94 | a prefix length is accepted exactly if it is decimal and at most 128 |
| SpfTerms.DomainExactly | app/mojodns/spf.py:45-53 | a domain without macros is valid exactly if it has at most 253 characters and every label is right |
| SpfTerms.MacroDomainExactly | app/mojodns/spf.py:46-51 | one with a macro is held to its length alone |
| SpfTerms.UnknownExactly | app/mojodns/spf.py:119-122 | any other mechanism name, and no known one, is an unknown mechanism and an error |
| SpfRecord.ParseSpf | app/mojodns/spf.py:125-165 | the loop computes the terms, errors and warnings of a record |
| SpfTerms.ValidExactly | app/mojodns/spf.py:125-165 | a record is valid exactly if it starts with its version, every term is accepted and "redirect" is not repeated |
| SpfTerms.WarningsExactly | app/mojodns/spf.py:136-162 | each warning about a valid record is given exactly when it is true of its terms and length |
| SpfRecord.RecordRoundTripExactly | app/mojodns/spf.py:180-182 | for every valid record the record built from its terms is valid with the same terms if and only if it holds no complete quoted string; it then builds to itself |
| SpfRecord.StoredParses | app/mojodns/dnsutil.py:19-23 | every valid record, quoted for storing, is valid and has the same terms; only outer spaces go |
| SpfMeaning.QuotingRecordBroken | app/mojodns/spf.py:35-42 | the panel accepts a stored record with "exists:%{i}" and a quoted "x" behind it, and the record built from its terms does not parse back |
| SpfJs.ParsersAgree | app/mojodns/static/js/spf.js:138-151 | on every token whose kind the server knows the browser reads the same kind and value, and the same qualifier with a missing one as "+" |
| SpfJs.PrintersAgree | app/mojodns/static/js/spf.js:89-99 | the browser prints a term as the server does without an explicit "+", if and only if it is not an "all" with a value |
| SpfJs.BrowserRecordExactly | app/mojodns/static/js/spf.js:119-121 | for every valid record the record the browser writes from its terms is valid for the server with the same terms up to "+" if and only if it holds no complete quoted string |
| SpfMeaning.CleanedEvaluated | app/mojodns/spf.py:145-148 | deleting late terms, an ignored "redirect" and "+" never changes which mechanism decides nor the lookups spent, under any lookup limit |
| SpfMeaning.VerdictKeptExactly | app/mojodns/spf.py:136-156 | under any limit that allows a lookup the verdict survives for every sender if and only if "exp" occurs at most once, or more than once before the first "all" |
| SpfMeaning.RepeatedExpBroken | app/mojodns/spf.py:147-153 | the panel accepts "v=spf1 exp=a.example -all exp=b.example", whose verdict changes when its flagged term is deleted |
| SpfMeaning.ExplanationKeptExactly | app/mojodns/spf.py:147-148 | for every valid record and any limit, explanations survive for every sender if and only if no mechanism can fail anybody, or the record has exactly one "exp" just when it has exactly one before the first "all" |
| SpfMeaning.LateExpBroken | app/mojodns/spf.py:147-148 | the panel accepts "v=spf1 -all exp=a.example", which loses its explanation with its flagged term |
| SpfMeaning.LookupsBounded | app/mojodns/spf.py:143-144 | a receiver evaluates at most the counted number of lookup terms |
| SpfMeaning.LimitFreeExactly | app/mojodns/spf.py:157-158 | the limit of ten changes no verdict for senders whose lookups are all on the record itself if and only if at most ten lookup terms come before the first "all", "redirect" included when there is none |
| SpfMeaning.CountedLimitIsSound | app/mojodns/spf.py:143-158 | a record of at most ten counted lookup terms never runs into the limit by itself |
| SpfMeaning.LateLookupsBroken | app/mojodns/spf.py:143-158 | the panel warns of eleven lookup terms in a record of "-all" and eleven times "a", of which a receiver reaches none |
| RateLimit.Limiter.Allow | app/mojodns/ratelimit.py:18-36 | the answer and stored hits of one attempt; other keys untouched; without a limit the caller is let in and nothing recorded |
| RateLimit.NeverMoreThanLimit | app/mojodns/ratelimit.py:18-36 | with readings out of order by at most d, no window of 60 - d seconds holds more than the limit of allowed calls, over every run |
| RateLimit.AllowedExactly | app/mojodns/ratelimit.py:18-36 | with readings in order a caller is let in exactly when the limit is zero or less or fewer calls than that were recorded in the last 60 seconds, and recorded exactly when let in under a positive limit |
| RateLimit.UnlimitedAdmits | app/mojodns/ratelimit.py:22-26 | a limit of zero or less admits every caller, in any order, and records nothing |
| RateLimit.PrunedDecidesAsHistory | app/mojodns/ratelimit.py:29-36 | with readings in order the pruned list decides as the whole history would |
| RateLimit.RetryWithinBounds | app/mojodns/ratelimit.py:30-33 | the wait is between 1 and 60 seconds, less than 1 s above and less than 1 ms below the time at which an undisturbed caller is let in |
| RateLimit.RetrySufficesExactly | app/mojodns/ratelimit.py:30-33 | waiting as told lets an undisturbed caller in if and only if the remaining time is under a second, whole, or at least a millisecond beyond a whole second |
| RateLimit.RetryCanBeShort | app/mojodns/ratelimit.py:31 | a caller that waits as told and is refused |
| ReRoot.MovedToSelf | app/mojodns/axfr.py:76-79 | moving a zone onto its own origin changes no name |
| ReRoot.MovedUnder | app/mojodns/axfr.py:76-79 | a name that ends in the old origin, in any case, ends in the new one instead |
| ReRoot.MovedOutside | app/mojodns/axfr.py:76-79 | a name that ends otherwise stays |
| ReRoot.MovedInjective | app/mojodns/axfr.py:94-100 | different owners stay different |
| ReRoot.RoundTripExactly | app/mojodns/axfr.py:76-79 | a name moved from A to B and back is restored if and only if it was under A or not under B |
| ReRoot.ZoneRoundTripExactly | app/mojodns/axfr.py:94-109 | so is a whole zone, if and only if no name in its data lay outside A but under B |
| ReRoot.ParseZone | app/mojodns/axfr.py:95-112 | the nested loops compute the grouping, and fail without an SOA under the spelled origin |
| ReRoot.GroupingKeepsRecords | app/mojodns/axfr.py:96-109 | the grouping keeps exactly the moved non-DNSSEC records, each once, and lists each rrset once |
| ReRoot.FirstSetGivesTtl | app/mojodns/axfr.py:96-105 | there is an rrset for exactly the keys of the moved non-DNSSEC sets, and its TTL is that of the first of them |
| ReRoot.ImportSucceedsExactly | app/mojodns/axfr.py:110-112 | an import succeeds if and only if the origin is spelled as the DNS library prints it, in lower case, and an SOA sits at the apex |
| ReRoot.SpelledOriginBroken | app/mojodns/axfr.py:67-112 | files whose origin has a capital or a letter outside ASCII fail to import |
| ReRoot.CaptureBroken | app/mojodns/axfr.py:76-79 | a name outside A but under B that does not come back |
| Catalog.Host.ProcessSource | nsd-slave/nsd-catalog-sync.sh:69-124 | one source adds a stanza for each member not seen before, or fails without adding any |
| Catalog.Host.Sync | nsd-slave/nsd-catalog-sync.sh:126-164 | success exactly when every source has a master, a catalog and an SOA record in its transfer; otherwise file and write count stay; the file is written only then and only on a change |
| Catalog.AllOrNothing | nsd-slave/nsd-catalog-sync.sh:73-154 | if some source lacks a setting or an SOA record in its transfer the file stays as it was; if none does it becomes the merged list |
| Catalog.UnreachableKeepsFile | nsd-slave/nsd-catalog-sync.sh:97-154 | one source with an empty transfer, anywhere among others, leaves the file as it was |
| Catalog.MembersAre | nsd-slave/nsd-catalog-sync.sh:107-109 | a source offers exactly the targets of its pointers below "zones", without a final dot and in lower case |
| Catalog.FileReadsBack | nsd-slave/nsd-catalog-sync.sh:63-119 | read line by line the file is its header and four lines for each stanza |
| Catalog.FirstSourceWins | nsd-slave/nsd-catalog-sync.sh:111-121 | the file lists every offered member exactly once, under the first source that offers it |
| Catalog.SortedUnique | nsd-slave/nsd-catalog-sync.sh:107-109 | a sorted list without repeats is determined by its elements |
| Catalog.TransferOrderIrrelevant | nsd-slave/nsd-catalog-sync.sh:107-121 | the file depends only on each source's settings and set of members |
| Catalog.RerunChangesNothing | nsd-slave/nsd-catalog-sync.sh:149-160 | a failed source leaves the live file alone, and a rerun on the same members changes nothing |
| Catalog.MembersByStandardExactly | nsd-slave/nsd-catalog-sync.sh:107-109 | the members are those of RFC 9432 if and only if either the catalog may be processed, is configured without capitals or has no members, and every stray pointer names a member anyway; or it may not be processed (no single version "2", or a node with several pointers) and no pointer is counted |
| Catalog.CapitalCatalogHasNoMembers | nsd-slave/nsd-catalog-sync.sh:107-108 | a catalog configured with capitals transfers well and yields no members |
| Catalog.StrayPointerListed | nsd-slave/nsd-catalog-sync.sh:107-109 | the target of a "coo" property is listed as a member |
| Catalog.OldVersionListed | nsd-slave/nsd-catalog-sync.sh:103-109 | a catalog of schema version "1", which may not be processed, has its member listed |
| Catalog.CapitalCatalogBroken | nsd-slave/nsd-catalog-sync.sh:107-108 | a catalog configured as "Cat." with a member is transferred and lists none |

## Left out

- HTTP routing, sessions, templates, flash messages, history, users and zone ownership: plumbing around the modelled calls.
- Reachability and delegation checks, zone transfer to text, DNSSEC reports, the sending of NOTIFY packets: sockets and DNS queries.
- Sweeps whose zone list cannot be read: they change nothing and are not counted.
- Two panel handlers at work at once: the panel has no locking between them; each is modelled alone.
- GateRefinesSettings: speaks of completed key and range changes; the code has no rollback between its two metadata writes.
- OneSenderExactly: speaks of completed requests; one cut short between its writes may leave a zone with two senders or none until the next that sets them.
- Orphaned keys left behind by a delete in which a call failed: nothing in the panel comes back for them.
- Serve: requests act on ordinary zones and name keys to delete tidily, or global ones anyhow; the catalog zone lists every global key, as the panel sets it up at start.
- PowerDNS's own checks of owner names and contents: the model takes whatever is written.
- Lower-casing of letters outside ASCII, and whitespace and digits that Python and JavaScript class differently.
- Floating-point rounding of the limiter's clock; readings are real numbers.
- What check_host finds in included and redirected records, the lookups spent there, and void lookups: they are part of the given world.
- MembersByStandardExactly: the text of a version record is its first string; the script's warning about the version is not modelled.
- Parsing of zone files, names with escaped dots, and the order of rrsets in a parsed zone: dnspython's.
- The SOA editor, the table view of records and its sorting, dynamic DNS and the PowerDNS-compatible API: they would add easy members.
- NSD's own validation and reload after the include file is written, locale collation and file-name expansion in the shell.
