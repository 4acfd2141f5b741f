/** Keeping the JSON configuration in step with the service schema: sync_config of
    scripts/sync-config.py.

    The method mutates a copy of the configuration as the script does; the
    specification says, service by service and section by section, what the result
    must be. */
module SyncConfig {
  import opened Options
  import opened Text

  /** JSON values; the order of object keys is not modelled. */
  datatype Json =
    | Null
    | Bool(b: bool)
    | Number(n: int)
    | Str(s: string)
    | Arr(items: seq<Json>)
    | Obj(fields: map<string, Json>)

  type Fields = map<string, Json>

  /** What the schema knows of one service. */
  datatype Service = Service(subkeys: set<string>, enableDefault: bool)

  type Schema = map<string, Service>

  datatype Outcome = Synced(config: Fields) | Malformed(section: string)

  // ------------------------------------------------------ the required sections

  /** Every section the script insists on, with its defaults. */
  function RequiredSections(): map<string, Json>
  {
    map[
      "system" := Obj(map[
        "domain" := Str("homefree.host"), "hostName" := Str("homefree"), "timeZone" := Str("Etc/UTC"),
        "defaultLocale" := Str("en_US.UTF-8"), "countryCode" := Null, "keyMap" := Str("us"),
        "adminUsername" := Str("homefree"), "adminDescription" := Str("HomeFree Admin"),
        "localDomain" := Str("lan"), "additionalDomains" := Arr([]), "authorizedKeys" := Arr([])]),
      "network" := Obj(map[
        "wan-interface" := Str("ens3"), "lan-interface" := Str("ens5"), "router-enable" := Bool(false),
        "lan-address" := Str("10.0.0.1"), "lan-subnet" := Str("10.0.0.0/24"),
        "dhcp-range-start" := Str("10.0.0.100"), "dhcp-range-end" := Str("10.0.0.254"),
        "enable-unbound-adblock" := Bool(false), "wan-bitrate-mbps-down" := Null,
        "wan-bitrate-mbps-up" := Null, "static-ips" := Arr([])]),
      "dns" := Obj(map[
        "overrides" := Arr([]),
        "dynamic-dns" := Obj(map[
          "interval" := Str("10m"), "usev4" := Str("webv4, webv4=ipinfo.io/ip"),
          "usev6" := Str("webv6, webv6=v6.ipinfo.io/ip"), "zones" := Arr([])]),
        "cert-management" := Null]),
      "mounts" := Arr([]),
      "service-config" := Arr([]),
      "proxied-domains" := Arr([]),
      "backups" := Obj(map[
        "enable" := Bool(false), "to-path" := Str(""), "extra-from-paths" := Arr([]),
        "backblaze-enable" := Bool(false), "backblaze-bucket" := Str("")])
    ]
  }

  const OLD_KEY := "enable-adblock"
  const NEW_KEY := "enable-unbound-adblock"

  // ------------------------------------------------------------ specification

  function Without(m: Fields, key: string): Fields
  {
    m - {key}
  }

  /** A service of the configuration after the stale-key sweep. */
  function SweptService(schema: Schema, name: string, value: Json): Json
  {
    if name in schema && value.Obj? && schema[name].subkeys != {}
    then Obj(map k | k in value.fields && k in schema[name].subkeys :: value.fields[k])
    else value
  }

  function FreshService(s: Service): Json
  {
    Obj(map["enable" := Bool(s.enableDefault), "public" := Bool(false)])
  }

  function Unswept(schema: Schema, services: Fields, name: string): Json
    requires name in services || name in schema
  {
    if name in services then services[name] else FreshService(schema[name])
  }

  /** Every service the configuration or the schema names. A fresh service goes
      through the sweep as well. */
  function SyncedServices(schema: Schema, services: Fields): Fields
  {
    map name | name in services.Keys + schema.Keys ::
      SweptService(schema, name, Unswept(schema, services, name))
  }

  /** The legacy network key: moved to its new name unless that is set already. */
  function Renamed(network: Json): Json
  {
    if !network.Obj? || OLD_KEY !in network.fields then network
    else if NEW_KEY !in network.fields
    then Obj(Without(network.fields, OLD_KEY)[NEW_KEY := network.fields[OLD_KEY]])
    else Obj(Without(network.fields, OLD_KEY))
  }

  /** A section completed by its defaults; existing values win. */
  function Completed(defaults: Json, value: Json): Json
  {
    if defaults.Obj? && value.Obj? then Obj(defaults.fields + value.fields) else value
  }

  function CompletedSection(required: Fields, config: Fields, section: string): Json
    requires section in config || section in required
  {
    if section !in config then required[section]
    else if section in required then Completed(required[section], config[section])
    else config[section]
  }

  function CompletedSections(required: Fields, config: Fields): Fields
  {
    map s | s in config.Keys + required.Keys :: CompletedSection(required, config, s)
  }

  /** The script's `key in value`: a field, an item of a list or a part of a string. */
  predicate Holds(value: Json, key: string)
  {
    match value
    case Obj(fields) => key in fields
    case Arr(items) => Str(key) in items
    case Str(s) => Contains(s, key)
    case _ => false
  }

  /** Keys can be added to an object only; another section must hold them all. */
  predicate Fits(defaults: Json, value: Json)
  {
    defaults.Obj? && !value.Obj? ==> forall key :: key in defaults.fields ==> Holds(value, key)
  }

  predicate SectionsFit(required: Fields, config: Fields)
  {
    forall s :: s in required && s in config ==> Fits(required[s], config[s])
  }

  predicate WellFormed(config: Fields)
  {
    ("services" in config ==> config["services"].Obj?) && SectionsFit(RequiredSections(), config)
  }

  function ServicesOf(config: Fields): Fields
  {
    if "services" in config && config["services"].Obj? then config["services"].fields else map[]
  }

  /** The configuration once services and the network key are done. */
  function Prepared(schema: Schema, config: Fields): Fields
  {
    var c := config["services" := Obj(SyncedServices(schema, ServicesOf(config)))];
    if "network" in c then c["network" := Renamed(c["network"])] else c
  }

  /** The whole result. An empty schema means the schema could not be read, and
      nothing is touched. */
  function Sync(schema: Schema, config: Fields): Fields
  {
    if schema == map[] then config else CompletedSections(RequiredSections(), Prepared(schema, config))
  }

  lemma PreparedFitsIn(schema: Schema, required: Fields, config: Fields)
    requires "services" !in required
    ensures SectionsFit(required, Prepared(schema, config)) <==> SectionsFit(required, config)
  {
    var c := Prepared(schema, config);
    forall s | s in required ensures s in c <==> s in config {
    }
    forall s | s in required && s in config ensures Fits(required[s], c[s]) <==> Fits(required[s], config[s]) {
      RenamedFits(required[s], config[s]);
    }
  }

  lemma RenamedFits(defaults: Json, value: Json)
    ensures Fits(defaults, Renamed(value)) <==> Fits(defaults, value)
  {
  }

  lemma PreparedFits(schema: Schema, config: Fields)
    requires "services" in config ==> config["services"].Obj?
    ensures SectionsFit(RequiredSections(), Prepared(schema, config)) <==> WellFormed(config)
  {
    PreparedFitsIn(schema, RequiredSections(), config);
  }

  // ------------------------------------------------------------------ the script

  /** Pops the stale subkeys of one service, one at a time. */
  method DropStale(fields: Fields, declared: set<string>) returns (kept: Fields)
    ensures kept == map k | k in fields && k in declared :: fields[k]
  {
    kept := fields;
    var stale := fields.Keys - declared;
    while stale != {}
      invariant stale <= fields.Keys - declared
      invariant kept == map k | k in fields && (k in declared || k in stale) :: fields[k]
      decreases stale
    {
      var key :| key in stale;
      kept := Without(kept, key);
      stale := stale - {key};
    }
  }

  /** Adds the schema's missing services with their defaults. */
  method AddMissing(schema: Schema, current: Fields) returns (services: Fields)
    ensures services.Keys == current.Keys + schema.Keys
    ensures forall s :: s in services ==> services[s] == Unswept(schema, current, s)
  {
    services := current;
    var missing := schema.Keys - current.Keys;
    while missing != {}
      invariant missing <= schema.Keys - current.Keys
      invariant services.Keys == current.Keys + (schema.Keys - missing)
      invariant forall s :: s in services ==> services[s] == Unswept(schema, current, s)
      decreases missing
    {
      var s :| s in missing;
      services := services[s := FreshService(schema[s])];
      missing := missing - {s};
    }
  }

  /** Drops the stale subkeys of every service the schema knows. */
  method SweepServices(schema: Schema, before: Fields) returns (services: Fields)
    ensures services.Keys == before.Keys
    ensures forall s :: s in before ==> services[s] == SweptService(schema, s, before[s])
  {
    services := before;
    var todo := before.Keys;
    while todo != {}
      invariant todo <= before.Keys == services.Keys
      invariant forall s :: s in before ==>
        services[s] == if s in todo then before[s] else SweptService(schema, s, before[s])
      decreases todo
    {
      var s :| s in todo;
      if s in schema && services[s].Obj? && schema[s].subkeys != {} {
        var kept := DropStale(services[s].fields, schema[s].subkeys);
        services := services[s := Obj(kept)];
      }
      todo := todo - {s};
    }
  }

  /** Adds the missing default keys of one section. */
  method Complete(defaults: Fields, fields: Fields) returns (r: Fields)
    ensures r == defaults + fields
  {
    r := fields;
    var todo := defaults.Keys;
    while todo != {}
      invariant todo <= defaults.Keys
      invariant r.Keys == fields.Keys + (defaults.Keys - todo)
      invariant forall k :: k in r ==> r[k] == if k in fields then fields[k] else defaults[k]
      decreases todo
    {
      var k :| k in todo;
      if k !in r {
        r := r[k := defaults[k]];
      }
      todo := todo - {k};
    }
  }

  /** Completes every required section of the configuration. */
  method CompleteSections(required: Fields, before: Fields) returns (r: Outcome)
    ensures SectionsFit(required, before) ==> r == Synced(CompletedSections(required, before))
    ensures !SectionsFit(required, before) ==> r.Malformed?
  {
    var config := before;
    var todo := required.Keys;
    while todo != {}
      invariant todo <= required.Keys
      invariant config.Keys == before.Keys + (required.Keys - todo)
      invariant forall s :: s in config ==>
        config[s] == if s in todo then before[s] else CompletedSection(required, before, s)
      invariant forall s :: s in required && s !in todo && s in before ==> Fits(required[s], before[s])
      decreases todo
    {
      var s :| s in todo;
      if s !in config {
        config := config[s := required[s]];
      } else if required[s].Obj? {
        if config[s].Obj? {
          var fields := Complete(required[s].fields, config[s].fields);
          config := config[s := Obj(fields)];
        } else if !Fits(required[s], config[s]) {
          return Malformed(s);
        }
      }
      todo := todo - {s};
    }
    r := Synced(config);
  }

  /** Adds what is missing, then sweeps everything, the fresh services too. */
  method SyncServices(schema: Schema, current: Fields) returns (services: Fields)
    ensures services == SyncedServices(schema, current)
  {
    services := AddMissing(schema, current);
    services := SweepServices(schema, services);
  }

  /** Services first, then the one-time key rename. */
  method Prepare(schema: Schema, current: Fields) returns (config: Fields)
    requires "services" in current ==> current["services"].Obj?
    ensures config == Prepared(schema, current)
  {
    config := current;
    if "services" !in config {
      config := config["services" := Obj(map[])];
    }
    var services := SyncServices(schema, config["services"].fields);
    config := config["services" := Obj(services)];
    assert config == current["services" := Obj(services)];
    if "network" in config {
      config := config["network" := Renamed(config["network"])];
    }
  }

  method SyncConfig(schema: Schema, current: Fields) returns (r: Outcome)
    ensures schema == map[] ==> r == Synced(current)
    ensures schema != map[] && WellFormed(current) ==> r == Synced(Sync(schema, current))
    ensures schema != map[] && !WellFormed(current) ==> r.Malformed?
  {
    if schema == map[] {
      return Synced(current);
    }
    if "services" in current && !current["services"].Obj? {
      return Malformed("services");
    }
    var config := Prepare(schema, current);
    PreparedFits(schema, current);
    r := CompleteSections(RequiredSections(), config);
  }

  // ------------------------------------------------------------------- the laws

  /** A service the schema knows holds no key the schema does not. */
  predicate NoStaleKey(service: Service, value: Json)
  {
    service.subkeys != {} && value.Obj? ==> value.fields.Keys <= service.subkeys
  }

  predicate HasKeys(defaults: Json, value: Json)
  {
    defaults.Obj? && value.Obj? ==> defaults.fields.Keys <= value.fields.Keys
  }

  predicate HasLegacyKey(network: Json)
  {
    network.Obj? && OLD_KEY in network.fields
  }

  /** Nothing left to do: every schema service is there, no known service has a
      stale key, the legacy key is gone and every required key is set. */
  ghost predicate InSync(schema: Schema, required: Fields, config: Fields)
  {
    && "services" in config && config["services"].Obj?
    && schema.Keys <= config["services"].fields.Keys
    && (forall name :: name in schema ==> NoStaleKey(schema[name], config["services"].fields[name]))
    && ("network" in config ==> !HasLegacyKey(config["network"]))
    && (forall s :: s in required ==> s in config && HasKeys(required[s], config[s]))
  }

  /** A swept service is left alone exactly when it has no stale key. */
  lemma SweepFixes(schema: Schema, name: string, value: Json)
    requires name in schema
    ensures SweptService(schema, name, value) == value <==> NoStaleKey(schema[name], value)
    ensures NoStaleKey(schema[name], SweptService(schema, name, value))
  {
    if schema[name].subkeys != {} && value.Obj? {
      var swept := SweptService(schema, name, value);
      if value.fields.Keys <= schema[name].subkeys {
        assert swept.fields == value.fields;
      } else {
        var k :| k in value.fields && k !in schema[name].subkeys;
        assert k !in swept.fields;
      }
    }
  }

  lemma ServicesFixed(schema: Schema, services: Fields)
    ensures SyncedServices(schema, services) == services <==>
      && schema.Keys <= services.Keys
      && forall name :: name in schema ==> NoStaleKey(schema[name], services[name])
  {
    var synced := SyncedServices(schema, services);
    forall name | name in schema
      ensures name in services ==>
        (SweptService(schema, name, services[name]) == services[name] <==> NoStaleKey(schema[name], services[name]))
    {
      if name in services {
        SweepFixes(schema, name, services[name]);
      }
    }
    assert synced.Keys == services.Keys + schema.Keys;
    if schema.Keys <= services.Keys && forall name :: name in schema ==> NoStaleKey(schema[name], services[name]) {
      assert synced.Keys == services.Keys;
      assert forall name :: name in services ==> synced[name] == services[name];
    }
  }

  lemma CompletedFixed(defaults: Json, value: Json)
    ensures Completed(defaults, value) == value <==> HasKeys(defaults, value)
    ensures HasKeys(defaults, Completed(defaults, value))
    ensures Completed(defaults, value).Obj? <==> value.Obj?
    ensures value.Obj? ==> value.fields.Keys <= Completed(defaults, value).fields.Keys
    ensures value.Obj? ==> forall k :: k in value.fields ==> Completed(defaults, value).fields[k] == value.fields[k]
  {
    if defaults.Obj? && value.Obj? {
      var r := defaults.fields + value.fields;
      assert r.Keys == defaults.fields.Keys + value.fields.Keys;
      if defaults.fields.Keys <= value.fields.Keys {
        assert r == value.fields;
      }
    }
  }

  lemma RenamedFixed(network: Json)
    ensures Renamed(network) == network <==> !HasLegacyKey(network)
    ensures !HasLegacyKey(Renamed(network)) && (Renamed(network).Obj? <==> network.Obj?)
  {
    assert |OLD_KEY| != |NEW_KEY|;
    if HasLegacyKey(network) {
      assert OLD_KEY !in Renamed(network).fields;
    }
  }

  /** The result, section by section. */
  lemma SyncAt(schema: Schema, required: Fields, config: Fields, s: string)
    requires s in required || s in config || s == "services"
    requires "services" !in required
    ensures
      var r := CompletedSections(required, Prepared(schema, config));
      && s in r
      && r[s] == if s == "services" then Obj(SyncedServices(schema, ServicesOf(config)))
                 else if s !in config then required[s]
                 else
                   var value := if s == "network" then Renamed(config[s]) else config[s];
                   if s in required then Completed(required[s], value) else value
  {
  }

  lemma NetworkDefaultsAreNew(required: Fields)
    requires required == RequiredSections()
    ensures "services" !in required
    ensures "network" in required && required["network"].Obj? && OLD_KEY !in required["network"].fields
    ensures NEW_KEY in required["network"].fields
  {
  }

  /** What sync leaves is in sync. */
  lemma SyncReachesSync(schema: Schema, required: Fields, config: Fields)
    requires required == RequiredSections() && schema != map[] && WellFormed(config)
    ensures InSync(schema, required, Sync(schema, config)) && WellFormed(Sync(schema, config))
  {
    NetworkDefaultsAreNew(required);
    var r := Sync(schema, config);
    SyncAt(schema, required, config, "services");
    SyncAt(schema, required, config, "network");
    var services := SyncedServices(schema, ServicesOf(config));
    forall name | name in schema ensures NoStaleKey(schema[name], services[name]) {
      SweepFixes(schema, name, Unswept(schema, ServicesOf(config), name));
    }
    forall s | s in required ensures s in r && HasKeys(required[s], r[s]) && Fits(required[s], r[s]) {
      SyncAt(schema, required, config, s);
      if s in config {
        var value := if s == "network" then Renamed(config[s]) else config[s];
        RenamedFixed(config[s]);
        CompletedFixed(required[s], value);
      }
    }
    if "network" in config {
      RenamedFixed(config["network"]);
      LegacyKeyStaysAway(required["network"], Renamed(config["network"]));
    }
  }

  lemma LegacyKeyStaysAway(defaults: Json, network: Json)
    requires !HasLegacyKey(network) && !HasLegacyKey(defaults)
    ensures !HasLegacyKey(Completed(defaults, network))
  {
  }

  /** A configuration is a fixed point exactly when it is in sync. */
  lemma FixedIffInSync(schema: Schema, required: Fields, config: Fields)
    requires required == RequiredSections() && schema != map[] && WellFormed(config)
    ensures Sync(schema, config) == config <==> InSync(schema, required, config)
  {
    NetworkDefaultsAreNew(required);
    var r := Sync(schema, config);
    if InSync(schema, required, config) {
      assert r.Keys == config.Keys;
      forall s | s in config ensures r[s] == config[s] {
        SyncAt(schema, required, config, s);
        ServicesFixed(schema, ServicesOf(config));
        RenamedFixed(config[s]);
        if s in required {
          CompletedFixed(required[s], config[s]);
        }
      }
    } else if r == config {
      SyncReachesSync(schema, required, config);
    }
  }

  /** Running the script on its own output changes nothing. */
  lemma SyncIsIdempotent(schema: Schema, config: Fields)
    requires schema == map[] || WellFormed(config)
    ensures schema == map[] || WellFormed(Sync(schema, config))
    ensures Sync(schema, Sync(schema, config)) == Sync(schema, config)
  {
    if schema != map[] {
      SyncReachesSync(schema, RequiredSections(), config);
      FixedIffInSync(schema, RequiredSections(), Sync(schema, config));
    }
  }

  /** Services are never removed; a service outside the schema, one whose parsed
      schema is empty and one that is no object come through untouched; a known
      service keeps exactly its declared keys with their values; and the services
      added are the schema's missing ones. */
  lemma ServicesAreKept(schema: Schema, config: Fields)
    requires schema != map[] && WellFormed(config)
    ensures "services" in Sync(schema, config) && Sync(schema, config)["services"].Obj?
    ensures
      var was, now := ServicesOf(config), Sync(schema, config)["services"].fields;
      && now.Keys == was.Keys + schema.Keys
      && (forall name :: name in was && (name !in schema || schema[name].subkeys == {} || !was[name].Obj?) ==>
            now[name] == was[name])
      && (forall name :: name in was && name in schema && schema[name].subkeys != {} && was[name].Obj? ==>
            && now[name].Obj? && now[name].fields.Keys == was[name].fields.Keys * schema[name].subkeys
            && forall k :: k in now[name].fields ==> now[name].fields[k] == was[name].fields[k])
  {
    NetworkDefaultsAreNew(RequiredSections());
    SyncAt(schema, RequiredSections(), config, "services");
  }

  /** A service as the schema alone makes it: enabled by its default and not public, each
      key only where the parsed schema declares it, and nothing else. */
  predicate IsFresh(service: Service, value: Json)
  {
    && value.Obj?
    && (forall key :: key in value.fields ==> key == "enable" || key == "public")
    && (if service.subkeys == {} || "enable" in service.subkeys
        then "enable" in value.fields && value.fields["enable"] == Bool(service.enableDefault)
        else "enable" !in value.fields)
    && (if service.subkeys == {} || "public" in service.subkeys
        then "public" in value.fields && value.fields["public"] == Bool(false)
        else "public" !in value.fields)
  }

  lemma SweptFreshIsFresh(schema: Schema, services: Fields, name: string)
    requires name in schema && name !in services
    ensures name in SyncedServices(schema, services) && IsFresh(schema[name], SyncedServices(schema, services)[name])
  {
  }

  /** A service the schema names and the configuration does not hold is added so. */
  lemma ServicesAreAdded(schema: Schema, config: Fields, name: string)
    requires schema != map[] && WellFormed(config) && name in schema && name !in ServicesOf(config)
    ensures "services" in Sync(schema, config) && Sync(schema, config)["services"].Obj?
    ensures name in Sync(schema, config)["services"].fields
    ensures IsFresh(schema[name], Sync(schema, config)["services"].fields[name])
  {
    NetworkDefaultsAreNew(RequiredSections());
    SyncAt(schema, RequiredSections(), config, "services");
    SweptFreshIsFresh(schema, ServicesOf(config), name);
  }

  /** A required section that is missing is added whole, and a required key missing from
      an object section is added with its default; of the network section the renamed
      legacy value comes first. */
  lemma DefaultsAreAdded(schema: Schema, config: Fields, s: string)
    requires schema != map[] && WellFormed(config) && s in RequiredSections()
    ensures s in Sync(schema, config)
    ensures s !in config ==> Sync(schema, config)[s] == RequiredSections()[s]
    ensures
      s in config && config[s].Obj? && RequiredSections()[s].Obj? ==>
        var was, now, defaults := config[s].fields, Sync(schema, config)[s], RequiredSections()[s].fields;
        && now.Obj?
        && (forall key :: key in now.fields ==> key in was || key in defaults)
        && (forall key :: key in defaults && key !in was && !(s == "network" && key == NEW_KEY && OLD_KEY in was) ==>
              key in now.fields && now.fields[key] == defaults[key])
  {
    var required := RequiredSections();
    NetworkDefaultsAreNew(required);
    SyncAt(schema, required, config, s);
  }

  /** Every other section keeps every key and value, except that the network's
      legacy key is gone and its value sits under the new name unless that name was
      already set. Sections the script does not know are untouched. */
  lemma SectionsAreKept(schema: Schema, config: Fields, s: string)
    requires schema != map[] && WellFormed(config) && s in config && s != "services"
    ensures s in Sync(schema, config)
    ensures
      var was, now := config[s], Sync(schema, config)[s];
      && (s !in RequiredSections() || !RequiredSections()[s].Obj? ==> now == was)
      && (!was.Obj? ==> now == was)
      && (s in RequiredSections() && RequiredSections()[s].Obj? && was.Obj? ==>
            && now.Obj?
            && (forall k :: k in was.fields && !(s == "network" && k == OLD_KEY) ==>
                  k in now.fields && now.fields[k] == was.fields[k])
            && (s == "network" ==> OLD_KEY !in now.fields)
            && (s == "network" && OLD_KEY in was.fields && NEW_KEY !in was.fields ==>
                  NEW_KEY in now.fields && now.fields[NEW_KEY] == was.fields[OLD_KEY]))
  {
    var required := RequiredSections();
    NetworkDefaultsAreNew(required);
    SyncAt(schema, required, config, s);
    RenamedFixed(config[s]);
    if s in required && required[s].Obj? && config[s].Obj? {
      CompletedFixed(required[s], if s == "network" then Renamed(config[s]) else config[s]);
      if s == "network" {
        LegacyKeyStaysAway(required[s], Renamed(config[s]));
        RenameKeepsValues(config[s]);
      }
    }
  }

  lemma RenameKeepsValues(network: Json)
    requires network.Obj?
    ensures
      var r := Renamed(network);
      && r.Obj?
      && (forall k :: k in network.fields && k != OLD_KEY ==> k in r.fields && r.fields[k] == network.fields[k])
      && (OLD_KEY in network.fields && NEW_KEY !in network.fields ==>
            NEW_KEY in r.fields && r.fields[NEW_KEY] == network.fields[OLD_KEY])
  {
  }
}
