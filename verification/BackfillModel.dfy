// Rows of registration_projections and the extraction of their capability fields:
// scripts/backfill_capabilities.py, extract_* and _parse_capabilities.
module BackfillModel {
  import opened Wrappers
  import opened Ordering

  // A decoded JSON value; repr is what str() gives for values that are not strings.
  datatype Json =
    | JsonNull
    | JsonBool(b: bool)
    | JsonNumber(repr: string)
    | JsonString(s: string)
    | JsonList(items: seq<Json>, repr: string)
    | JsonObject(fields: map<string, Json>, repr: string)

  type Capabilities = map<string, Json>

  // The stored column: a JSON text (decoded, if it decodes), an object, or anything else.
  datatype RawCapabilities = RawText(decoded: Option<Json>) | RawObject(fields: Capabilities) | RawOther

  datatype Fields = Fields(
    contractType: Option<string>,
    intentTypes: seq<string>,
    protocols: seq<string>,
    capabilityTags: seq<string>,
    contractVersion: Option<string>)

  datatype Row = Row(nodeType: Option<string>, capabilities: RawCapabilities, fields: Fields)

  type Table = map<Key, Row>

  type Extraction = (Option<string>, RawCapabilities) -> Fields

  // str()
  function Str(j: Json): string {
    match j
    case JsonNull => "None"
    case JsonBool(b) => if b then "True" else "False"
    case JsonNumber(repr) => repr
    case JsonString(s) => s
    case JsonList(_, repr) => repr
    case JsonObject(_, repr) => repr
  }

  function Strs(items: seq<Json>): seq<string> { seq(|items|, i requires 0 <= i < |items| => Str(items[i])) }

  // _parse_capabilities
  function ParseCapabilities(raw: RawCapabilities): Capabilities {
    match raw
    case RawText(Some(JsonObject(fields, _))) => fields
    case RawObject(fields) => fields
    case _ => map[]
  }

  // The config object, empty when absent or not an object.
  function Config(c: Capabilities): map<string, Json> {
    if "config" in c && c["config"].JsonObject? then c["config"].fields else map[]
  }

  const VALID_TYPES: set<string> := {"effect", "compute", "reducer", "orchestrator"}

  const FLAGS: seq<string> :=
    ["postgres", "read", "write", "database", "transactions", "processing", "routing", "feature"]

  function ExtractContractType(c: Capabilities, nodeType: string): string {
    if "contract_type" in Config(c) then Str(Config(c)["contract_type"])
    else if nodeType in VALID_TYPES then nodeType
    else "unknown"
  }

  // extract_protocols and extract_intent_types
  function ExtractList(c: Capabilities, name: string): seq<string> {
    if name in Config(c) && Config(c)[name].JsonList? then Strs(Config(c)[name].items) else []
  }

  function ExtractVersion(c: Capabilities): Option<string> {
    if "contract_version" in Config(c) then Some(Str(Config(c)["contract_version"])) else None
  }

  // A sorted listing that depends only on which tags there are.
  function ExtractCapabilityTags(c: Capabilities): (tags: seq<string>)
    ensures Ascending(tags, StrLess)
    ensures forall t :: t in tags <==>
              (t in FLAGS && t in c && c[t] == JsonBool(true)) || t in ExtractList(c, "capability_tags")
  {
    StrLessTotal();
    var flagged := set t | t in FLAGS && t in c && c[t] == JsonBool(true);
    var custom := ExtractList(c, "capability_tags");
    Sort(flagged + (set t | t in custom), StrLess)
  }

  // The five columns the UPDATE writes for a fetched row.
  function Extract(nodeType: Option<string>, raw: RawCapabilities): (f: Fields)
    ensures f.contractType.Some?
  {
    var c := ParseCapabilities(raw);
    Fields(
      Some(ExtractContractType(c, if nodeType.Some? then nodeType.value else "")),
      ExtractList(c, "intent_types"),
      ExtractList(c, "protocols"),
      ExtractCapabilityTags(c),
      ExtractVersion(c))
  }

  // The selection predicate of the SELECT.
  predicate IsNull(r: Row) { r.fields.contractType.None? }

  function Filled(ex: Extraction, r: Row): Row { r.(fields := ex(r.nodeType, r.capabilities)) }

  function NullKeys(t: Table): set<Key> { set k | k in t && IsNull(t[k]) }

  // Strictly behind the cursor; everything is behind a cursor not yet set.
  predicate After(cursor: Option<Key>, k: Key) { cursor.None? || KeyLess(cursor.value, k) }

  function Remaining(t: Table, cursor: Option<Key>): set<Key> {
    set k | k in NullKeys(t) && After(cursor, k)
  }

  function Take<T>(s: seq<T>, n: nat): (r: seq<T>)
    ensures forall x :: x in r ==> x in s
  {
    if n <= |s| then s[..n] else s
  }

  // The first n keys, in key order, of the NULL rows behind the cursor.
  ghost function FetchKeys(t: Table, cursor: Option<Key>, n: nat): (keys: seq<Key>)
    ensures Ascending(keys, KeyLess) && |keys| <= n
    ensures forall k :: k in keys ==> k in NullKeys(t) && After(cursor, k)
  {
    KeyLessTotal();
    var all := Sorted(Remaining(t, cursor), KeyLess);
    assert forall k :: k in all ==> k in Remaining(t, cursor);
    Take(all, n)
  }

  // A row as the SELECT returned it.
  datatype Fetched = Fetched(key: Key, nodeType: Option<string>, capabilities: RawCapabilities)

  function Snapshot(t: Table, k: Key): Fetched
    requires k in t
  {
    Fetched(k, t[k].nodeType, t[k].capabilities)
  }

  ghost function FetchBatch(t: Table, cursor: Option<Key>, n: nat): (batch: seq<Fetched>)
    ensures |batch| == |FetchKeys(t, cursor, n)|
    ensures forall i :: 0 <= i < |batch| ==>
              batch[i].key == FetchKeys(t, cursor, n)[i] && batch[i].key in t && batch[i] == Snapshot(t, batch[i].key)
  {
    var keys := FetchKeys(t, cursor, n);
    assert forall i :: 0 <= i < |keys| ==> keys[i] in keys && keys[i] in NullKeys(t);
    seq(|keys|, i requires 0 <= i < |keys| => Snapshot(t, keys[i]))
  }

  // The SELECT itself.
  method Select(t: Table, cursor: Option<Key>, n: nat) returns (batch: seq<Fetched>)
    ensures batch == FetchBatch(t, cursor, n)
  {
    KeyLessTotal();
    var keys := Take(Sort(Remaining(t, cursor), KeyLess), n);
    assert keys == FetchKeys(t, cursor, n);
    assert forall i :: 0 <= i < |keys| ==> keys[i] in keys && keys[i] in NullKeys(t);
    batch := seq(|keys|, i requires 0 <= i < |keys| => Snapshot(t, keys[i]));
  }

  // A pure extraction that never leaves the type column NULL: all the batching needs to
  // know about the extract_* functions.
  ghost predicate AlwaysTyped(ex: Extraction) {
    forall nodeType, raw :: ex(nodeType, raw).contractType.Some?
  }

  lemma ExtractIsAlwaysTyped()
    ensures AlwaysTyped(Extract)
  {
  }

  // The UPDATE of one row by its key, with no re-check that it is still NULL.
  function ApplyUpdate(ex: Extraction, t: Table, f: Fetched): Table {
    if f.key in t then t[f.key := t[f.key].(fields := ex(f.nodeType, f.capabilities))] else t
  }

  function ApplyBatch(ex: Extraction, t: Table, batch: seq<Fetched>): Table {
    if batch == [] then t else ApplyUpdate(ex, ApplyBatch(ex, t, batch[..|batch| - 1]), batch[|batch| - 1])
  }

  // A non-empty batch is the smallest remaining keys: whatever it leaves out lies behind it.
  lemma FetchSkipsNothing(t: Table, cursor: Option<Key>, n: nat, k: Key)
    requires n >= 1 && k in NullKeys(t) && After(cursor, k)
    ensures var keys := FetchKeys(t, cursor, n);
            keys != [] && (k in keys || KeyLess(keys[|keys| - 1], k))
  {
    KeyLessTotal();
    var all := Sorted(Remaining(t, cursor), KeyLess);
    assert k in Remaining(t, cursor) && k in all;
    var i :| 0 <= i < |all| && all[i] == k;
    if i < n && n <= |all| {
      assert all[..n][i] == k;
    }
  }

  // The batch has no key twice.
  ghost predicate DistinctKeys(batch: seq<Fetched>) {
    forall i, j :: 0 <= i < j < |batch| ==> batch[i].key != batch[j].key
  }

  lemma BatchDistinct(t: Table, cursor: Option<Key>, n: nat)
    ensures DistinctKeys(FetchBatch(t, cursor, n))
  {
    KeyLessTotal();
    AscendingDistinct(FetchKeys(t, cursor, n), KeyLess);
  }

  lemma {:induction false} ApplyBatchKeys(ex: Extraction, t: Table, batch: seq<Fetched>)
    ensures ApplyBatch(ex, t, batch).Keys == t.Keys
  {
    if batch != [] { ApplyBatchKeys(ex, t, batch[..|batch| - 1]); }
  }

  // Rows a batch does not name stay as they are.
  lemma {:induction false} ApplyBatchElsewhere(ex: Extraction, t: Table, batch: seq<Fetched>, k: Key)
    requires k in t && forall i :: 0 <= i < |batch| ==> batch[i].key != k
    ensures k in ApplyBatch(ex, t, batch) && ApplyBatch(ex, t, batch)[k] == t[k]
  {
    if batch != [] { ApplyBatchElsewhere(ex, t, batch[..|batch| - 1], k); }
  }

  // Rows it names get the extraction of what was fetched.
  lemma {:induction false} ApplyBatchAt(ex: Extraction, t: Table, batch: seq<Fetched>, i: nat)
    requires i < |batch| && DistinctKeys(batch) && batch[i].key in t
    ensures var k := batch[i].key;
            k in ApplyBatch(ex, t, batch)
            && ApplyBatch(ex, t, batch)[k] == t[k].(fields := ex(batch[i].nodeType, batch[i].capabilities))
  {
    var front := batch[..|batch| - 1];
    ApplyBatchKeys(ex, t, front);
    if i < |front| {
      ApplyBatchAt(ex, t, front, i);
    } else {
      ApplyBatchElsewhere(ex, t, front, batch[i].key);
    }
  }
}
