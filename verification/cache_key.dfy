/** Cache-key derivation of `Text2CypherCache._generate_key`.

    The key is the first 16 hex digits of the SHA-256 digest of the question,
    an underscore, and the first 16 hex digits of the digest of
    `json.dumps(schema, sort_keys=True)`. The digest and the serialiser are
    parameters: the model does not compute SHA-256 or JSON text. What it does
    fix is the input of the serialiser: with `sort_keys=True` the text depends
    only on each object's key-to-value mapping, never on the insertion order
    of its fields, so the serialiser is applied to a `Canonical` value in
    which every object is an unordered map.
 */
module CacheKey {

  /** A schema as Python builds it: objects keep their insertion order. */
  datatype Json =
    | JNull
    | JBool(b: bool)
    | JInt(i: int)
    | JStr(s: string)
    | JList(items: seq<Json>)
    | JObject(fields: seq<Field>)

  datatype Field = Field(name: string, value: Json)

  /** What a key-sorted serialisation can observe of a `Json` value. */
  datatype Canonical =
    | CNull
    | CBool(b: bool)
    | CInt(i: int)
    | CStr(s: string)
    | CList(items: seq<Canonical>)
    | CObject(fields: map<string, Canonical>)

  /** The field at `i` is the last one with its name (the one a dict keeps). */
  predicate IsLastOfName(fs: seq<Field>, i: int)
    requires 0 <= i < |fs|
  {
    forall j :: i < j < |fs| ==> fs[j].name != fs[i].name
  }

  function Canon(j: Json): (c: Canonical)
    ensures j.JObject? <==> c.CObject?
    ensures j.JObject? ==>
      forall i :: 0 <= i < |j.fields| && IsLastOfName(j.fields, i) ==>
        j.fields[i].name in c.fields && c.fields[j.fields[i].name] == Canon(j.fields[i].value)
    ensures j.JObject? ==> c.fields.Keys == Names(j.fields)
  {
    match j
    case JNull => CNull
    case JBool(b) => CBool(b)
    case JInt(i) => CInt(i)
    case JStr(s) => CStr(s)
    case JList(items) => CList(seq(|items|, i requires 0 <= i < |items| => Canon(items[i])))
    case JObject(fs) =>
      CObject(LastByName(fs, seq(|fs|, i requires 0 <= i < |fs| => Canon(fs[i].value))))
  }

  /** `dict(zip(names, vals))`: each name maps to the value of its last
      field, as a later key overrides an earlier one. */
  function LastByName<T>(fs: seq<Field>, vals: seq<T>): (m: map<string, T>)
    requires |vals| == |fs|
    ensures m.Keys == Names(fs)
    ensures forall i :: 0 <= i < |fs| && IsLastOfName(fs, i) ==> fs[i].name in m && m[fs[i].name] == vals[i]
  {
    LastMapKeys(fs, vals);
    LastMapLookup(fs, vals);
    map i | 0 <= i < |fs| && IsLastOfName(fs, i) :: fs[i].name := vals[i]
  }

  lemma LastMapKeys<T>(fs: seq<Field>, vals: seq<T>)
    requires |vals| == |fs|
    ensures (map i | 0 <= i < |fs| && IsLastOfName(fs, i) :: fs[i].name := vals[i]).Keys == Names(fs)
  {
    var m := map i | 0 <= i < |fs| && IsLastOfName(fs, i) :: fs[i].name := vals[i];
    forall k | k in Names(fs) ensures k in m {
      var i :| 0 <= i < |fs| && fs[i].name == k;
      LastOfName(fs, i);
    }
  }

  lemma LastMapLookup<T>(fs: seq<Field>, vals: seq<T>)
    requires |vals| == |fs|
    ensures var m := map i | 0 <= i < |fs| && IsLastOfName(fs, i) :: fs[i].name := vals[i];
      forall i :: 0 <= i < |fs| && IsLastOfName(fs, i) ==> fs[i].name in m && m[fs[i].name] == vals[i]
  {
    var m := map i | 0 <= i < |fs| && IsLastOfName(fs, i) :: fs[i].name := vals[i];
    forall i | 0 <= i < |fs| && IsLastOfName(fs, i)
      ensures fs[i].name in m && m[fs[i].name] == vals[i]
    {
      var k := fs[i].name;
      var i2 :| 0 <= i2 < |fs| && IsLastOfName(fs, i2) && fs[i2].name == k && m[k] == vals[i2];
      assert !(i < i2) && !(i2 < i);
    }
  }

  /** The field names of an object. */
  function Names(fs: seq<Field>): set<string> {
    set i | 0 <= i < |fs| :: fs[i].name
  }

  /** Some field with the name of field `i` is the last one of that name. */
  lemma LastOfName(fs: seq<Field>, i: int)
    requires 0 <= i < |fs|
    ensures exists l :: i <= l < |fs| && fs[l].name == fs[i].name && IsLastOfName(fs, l)
    decreases |fs| - i
  {
    if !IsLastOfName(fs, i) {
      var j :| i < j < |fs| && fs[j].name == fs[i].name;
      LastOfName(fs, j);
    }
  }

  /** The two external functions the key depends on: a hex digest (SHA-256
      in the source) and a key-sorted JSON serialiser. */
  type Digest = string -> string
  type Serializer = Canonical -> string
  datatype Hashing = Hashing(digest: Digest, dumpSorted: Serializer)

  /** Python's `s[:n]`. */
  function Take(s: string, n: nat): (r: string)
    ensures |s| >= n ==> r == s[..(n)]
    ensures |s| < n ==> r == s
  {
    if |s| <= n then s else s[..(n)]
  }

  /** `_generate_key`: the first 16 characters of the question's digest,
      `_`, and the first 16 of the digest of the key-sorted schema. */
  function GenerateKey(h: Hashing, question: string, schema: Json): (key: string)
    ensures |key| <= 33
    ensures |h.digest(question)| >= 16 ==>
      |key| >= 17 && key[..16] == h.digest(question)[..16] && key[16] == '_'
    ensures |h.digest(question)| >= 16 && |h.digest(h.dumpSorted(Canon(schema)))| >= 16 ==>
      |key| == 33 && key[17..] == h.digest(h.dumpSorted(Canon(schema)))[..16]
  {
    var questionHash := Take(h.digest(question), 16);
    var schemaHash := Take(h.digest(h.dumpSorted(Canon(schema))), 16);
    var key := questionHash + "_" + schemaHash;
    assert |questionHash| == 16 ==> key[..16] == questionHash && key[17..] == schemaHash;
    key
  }

  /** Same-named fields of the two objects have the same canonical value. */
  predicate ValuesAgree(fs: seq<Field>, gs: seq<Field>) {
    forall i, j :: 0 <= i < |fs| && 0 <= j < |gs| && fs[i].name == gs[j].name ==>
      Canon(fs[i].value) == Canon(gs[j].value)
  }

  /** Two objects with the same field names, whose same-named fields have the
      same canonical value (repeated names included), have the same canonical form, whatever the order
      of their fields. Applied level by level this covers nested reorderings. */
  lemma CanonIgnoresFieldOrder(fs: seq<Field>, gs: seq<Field>)
    requires Names(fs) == Names(gs)
    requires ValuesAgree(fs, gs)
    ensures Canon(JObject(fs)) == Canon(JObject(gs))
  {
    var a := Canon(JObject(fs)).fields;
    var b := Canon(JObject(gs)).fields;
    forall k | k in a ensures k in b && a[k] == b[k] {
      var i := CanonFieldSource(fs, k);
      var j := CanonFieldSource(gs, k);
    }
    assert a == b;
  }

  /** The canonical value under a name is that of some field of the name. */
  lemma CanonFieldSource(fs: seq<Field>, k: string) returns (i: nat)
    requires k in Names(fs)
    ensures i < |fs| && fs[i].name == k
    ensures k in Canon(JObject(fs)).fields && Canon(JObject(fs)).fields[k] == Canon(fs[i].value)
  {
    var i0 :| 0 <= i0 < |fs| && fs[i0].name == k;
    LastOfName(fs, i0);
    i :| i0 <= i < |fs| && fs[i].name == k && IsLastOfName(fs, i);
  }

  /** `_generate_key` is a function of the question and the key-sorted schema
      only: reordering a schema's fields never changes the key. */
  lemma KeyIgnoresFieldOrder(h: Hashing, question: string, fs: seq<Field>, gs: seq<Field>)
    requires Names(fs) == Names(gs)
    requires ValuesAgree(fs, gs)
    ensures GenerateKey(h, question, JObject(fs)) == GenerateKey(h, question, JObject(gs))
  {
    CanonIgnoresFieldOrder(fs, gs);
  }

  /** The shape `get_schema_dict` builds, in both field orders, gets one key. */
  lemma SchemaFieldOrderExample(h: Hashing, question: string, nodes: Json, edges: Json)
    ensures GenerateKey(h, question, JObject([Field("nodes", nodes), Field("edges", edges)]))
         == GenerateKey(h, question, JObject([Field("edges", edges), Field("nodes", nodes)]))
  {
    var fs := [Field("nodes", nodes), Field("edges", edges)];
    var gs := [Field("edges", edges), Field("nodes", nodes)];
    assert fs[0].name == gs[1].name && fs[1].name == gs[0].name;
    KeyIgnoresFieldOrder(h, question, fs, gs);
  }

  /** Different questions can only share a key through a digest collision:
      equal keys force equal 16-digit question prefixes. */
  lemma EqualKeysShareQuestionPrefix(h: Hashing, q1: string, q2: string, s1: Json, s2: Json)
    requires |h.digest(q1)| >= 16 && |h.digest(q2)| >= 16
    requires GenerateKey(h, q1, s1) == GenerateKey(h, q2, s2)
    ensures h.digest(q1)[..16] == h.digest(q2)[..16]
  {
    var k := GenerateKey(h, q1, s1);
    assert k[..16] == h.digest(q1)[..16];
    assert GenerateKey(h, q2, s2)[..16] == h.digest(q2)[..16];
  }
}
