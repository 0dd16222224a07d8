// The five columns of scripts/backfill_capabilities.py in terms of the stored JSON: which key
// of the capabilities fills which column of a row.
module BackfillColumns {
  import opened Wrappers
  import opened Ordering
  import opened BackfillModel

  // The stored column is this object, as such or as JSON text.
  ghost predicate Holds(raw: RawCapabilities, fields: map<string, Json>) {
    raw == RawObject(fields) || exists repr :: raw == RawText(Some(JsonObject(fields, repr)))
  }

  // Its "config" object has this value under the name.
  ghost predicate ConfigHas(raw: RawCapabilities, name: string, value: Json) {
    exists fields, config, repr ::
      Holds(raw, fields) && "config" in fields && fields["config"] == JsonObject(config, repr)
      && name in config && config[name] == value
  }

  // What str() gives.
  ghost predicate PrintsAs(value: Json, s: string) {
    match value
    case JsonNull => s == "None"
    case JsonBool(b) => s == if b then "True" else "False"
    case JsonNumber(repr) => s == repr
    case JsonString(text) => s == text
    case JsonList(_, repr) => s == repr
    case JsonObject(_, repr) => s == repr
  }

  ghost predicate PrintAs(items: seq<Json>, texts: seq<string>) {
    |texts| == |items| && forall i :: 0 <= i < |items| ==> PrintsAs(items[i], texts[i])
  }

  // The items of the list config[name], one text each in their order; none when it is no list.
  ghost predicate ListColumn(raw: RawCapabilities, name: string, column: seq<string>) {
    && (forall items, repr :: ConfigHas(raw, name, JsonList(items, repr)) ==> PrintAs(items, column))
    && ((forall items, repr :: !ConfigHas(raw, name, JsonList(items, repr))) ==> column == [])
  }

  // config["contract_type"], else a valid node type, else "unknown".
  ghost predicate TypeColumn(raw: RawCapabilities, nodeType: Option<string>, column: Option<string>) {
    && column.Some?
    && (forall value :: ConfigHas(raw, "contract_type", value) ==> PrintsAs(value, column.value))
    && ((forall value :: !ConfigHas(raw, "contract_type", value)) ==>
          if nodeType in {Some("effect"), Some("compute"), Some("reducer"), Some("orchestrator")}
          then column == nodeType else column.value == "unknown")
  }

  // config["contract_version"], else NULL.
  ghost predicate VersionColumn(raw: RawCapabilities, column: Option<string>) {
    && (forall value :: ConfigHas(raw, "contract_version", value) ==> column.Some? && PrintsAs(value, column.value))
    && ((forall value :: !ConfigHas(raw, "contract_version", value)) ==> column.None?)
  }

  // One of the eight flags that is set to true...
  ghost predicate Flagged(raw: RawCapabilities, tag: string) {
    tag in {"postgres", "read", "write", "database", "transactions", "processing", "routing", "feature"}
    && exists fields :: Holds(raw, fields) && tag in fields && fields[tag] == JsonBool(true)
  }

  // ...or an item of config["capability_tags"].
  ghost predicate Listed(raw: RawCapabilities, tag: string) {
    exists items, repr, i :: ConfigHas(raw, "capability_tags", JsonList(items, repr)) && 0 <= i < |items| && PrintsAs(items[i], tag)
  }

  // The tags, sorted by code points, each once.
  ghost predicate TagsColumn(raw: RawCapabilities, column: seq<string>) {
    Ascending(column, StrLess) && forall tag :: tag in column <==> Flagged(raw, tag) || Listed(raw, tag)
  }

  ghost predicate Columns(raw: RawCapabilities, nodeType: Option<string>, f: Fields) {
    && TypeColumn(raw, nodeType, f.contractType)
    && ListColumn(raw, "intent_types", f.intentTypes)
    && ListColumn(raw, "protocols", f.protocols)
    && TagsColumn(raw, f.capabilityTags)
    && VersionColumn(raw, f.contractVersion)
  }

  // ----- the extraction computes them -----

  lemma HoldsParsed(raw: RawCapabilities, fields: map<string, Json>)
    requires Holds(raw, fields)
    ensures ParseCapabilities(raw) == fields
  {
  }

  lemma ParsedIsHeld(raw: RawCapabilities)
    ensures Holds(raw, ParseCapabilities(raw)) || ParseCapabilities(raw) == map[]
  {
    match raw
    case RawText(Some(JsonObject(fields, repr))) => assert Holds(raw, fields);
    case _ =>
  }

  lemma ConfigHasIff(raw: RawCapabilities, name: string, value: Json)
    ensures ConfigHas(raw, name, value) <==>
            name in Config(ParseCapabilities(raw)) && Config(ParseCapabilities(raw))[name] == value
  {
    var c := ParseCapabilities(raw);
    if name in Config(c) && Config(c)[name] == value {
      ParsedIsHeld(raw);
      assert c["config"] == JsonObject(Config(c), c["config"].repr);
    }
    if fields, config, repr :| Holds(raw, fields) && "config" in fields && fields["config"] == JsonObject(config, repr)
                               && name in config && config[name] == value {
      HoldsParsed(raw, fields);
    }
  }

  lemma ListIsColumn(raw: RawCapabilities, name: string)
    ensures ListColumn(raw, name, ExtractList(ParseCapabilities(raw), name))
  {
    var c := ParseCapabilities(raw);
    forall value { ConfigHasIff(raw, name, value); }
    if name in Config(c) && Config(c)[name].JsonList? {
      assert ConfigHas(raw, name, JsonList(Config(c)[name].items, Config(c)[name].repr));
    }
  }

  lemma TypeIsColumn(raw: RawCapabilities, nodeType: Option<string>)
    ensures TypeColumn(raw, nodeType, Some(ExtractContractType(ParseCapabilities(raw), if nodeType.Some? then nodeType.value else "")))
  {
    forall value { ConfigHasIff(raw, "contract_type", value); }
    var c := ParseCapabilities(raw);
    if "contract_type" in Config(c) {
      assert ConfigHas(raw, "contract_type", Config(c)["contract_type"]);
    }
  }

  lemma VersionIsColumn(raw: RawCapabilities)
    ensures VersionColumn(raw, ExtractVersion(ParseCapabilities(raw)))
  {
    forall value { ConfigHasIff(raw, "contract_version", value); }
    var c := ParseCapabilities(raw);
    if "contract_version" in Config(c) {
      assert ConfigHas(raw, "contract_version", Config(c)["contract_version"]);
    }
  }

  lemma FlaggedIff(raw: RawCapabilities, tag: string)
    ensures Flagged(raw, tag) <==> tag in FLAGS && tag in ParseCapabilities(raw) && ParseCapabilities(raw)[tag] == JsonBool(true)
  {
    if tag in ParseCapabilities(raw) {
      ParsedIsHeld(raw);
    }
  }

  lemma ListedIff(raw: RawCapabilities, tag: string)
    ensures Listed(raw, tag) <==> tag in ExtractList(ParseCapabilities(raw), "capability_tags")
  {
    var c := ParseCapabilities(raw);
    forall value { ConfigHasIff(raw, "capability_tags", value); }
    if tag in ExtractList(c, "capability_tags") {
      var list := Config(c)["capability_tags"];
      var i :| 0 <= i < |list.items| && Strs(list.items)[i] == tag;
      assert ConfigHas(raw, "capability_tags", JsonList(list.items, list.repr)) && PrintsAs(list.items[i], tag);
    }
    if items, repr, i :| ConfigHas(raw, "capability_tags", JsonList(items, repr)) && 0 <= i < |items| && PrintsAs(items[i], tag) {
      assert Strs(items)[i] == tag;
    }
  }

  lemma TagsAreColumn(raw: RawCapabilities)
    ensures TagsColumn(raw, ExtractCapabilityTags(ParseCapabilities(raw)))
  {
    var c := ParseCapabilities(raw);
    forall tag: string
      ensures Flagged(raw, tag) || Listed(raw, tag) <==>
              (tag in FLAGS && tag in c && c[tag] == JsonBool(true)) || tag in ExtractList(c, "capability_tags")
    {
      FlaggedIff(raw, tag);
      ListedIff(raw, tag);
    }
  }

  lemma ExtractFillsColumns(raw: RawCapabilities, nodeType: Option<string>)
    ensures Columns(raw, nodeType, Extract(nodeType, raw))
  {
    TypeIsColumn(raw, nodeType);
    ListIsColumn(raw, "intent_types");
    ListIsColumn(raw, "protocols");
    TagsAreColumn(raw);
    VersionIsColumn(raw);
  }
}
