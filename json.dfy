/** JSON as an abstract value: what `encoding/json` produces and consumes, without bytes.
    Numbers are integers; the records the driver exchanges hold no fractions. */
module JsonModel {

  datatype Json =
    | JNull
    | JBool(b: bool)
    | JNumber(n: int)
    | JString(s: string)
    | JArray(items: seq<Json>)
    | JObject(fields: map<string, Json>)

  /** A byte string handed to `json.Unmarshal`: either well-formed JSON or not. */
  datatype Document = Parsed(json: Json) | Malformed

  /** The case folding `json.Unmarshal` applies when it matches an object key to a struct
      field name: ASCII letters match either case, the Kelvin sign matches k and the long
      s matches s. */
  function FoldChar(c: char): char {
    if 'A' <= c <= 'Z' then (c as int + 32) as char
    else if c == '\U{212A}' then 'k'
    else if c == '\U{017F}' then 's'
    else c
  }

  /** The key names the field, up to case folding. */
  predicate FoldEq(key: string, name: string) {
    |key| == |name| && forall i :: 0 <= i < |key| ==> FoldChar(key[i]) == FoldChar(name[i])
  }

  /** The Go type of a struct field: a string, or an unsigned integer below a bound. */
  datatype FieldKind = Text | Number(bound: nat)

  /** A JSON value that can be stored into a field of that kind (null, which Go skips,
      is not one). */
  predicate Fits(j: Json, kind: FieldKind) {
    match kind
    case Text => j.JString?
    case Number(bound) => j.JNumber? && 0 <= j.n < bound
  }

  /** Some key naming the field holds a value that is neither null nor of the field's
      type: Go records a type error for it and leaves the field alone. */
  predicate Misfit(f: map<string, Json>, name: string, kind: FieldKind) {
    exists k :: k in f && FoldEq(k, name) && !f[k].JNull? && !Fits(f[k], kind)
  }

  /** What a struct field takes from an object: nothing when no key naming it holds a
      value of its type, otherwise the value those keys hold; Conflict when they hold
      different values, which Go settles by document order. */
  datatype FieldRead = Absent | Read(value: Json) | Conflict

  function FieldValue(f: map<string, Json>, name: string, kind: FieldKind): (r: FieldRead)
    ensures r.Read? ==> Fits(r.value, kind)
  {
    if forall k :: k in f && FoldEq(k, name) ==> !Fits(f[k], kind) then Absent
    else if exists k1, k2 :: k1 in f && k2 in f && FoldEq(k1, name) && FoldEq(k2, name) &&
              Fits(f[k1], kind) && Fits(f[k2], kind) && f[k1] != f[k2] then Conflict
    else
      assert forall k :: k in f ==> f[k] in f.Values;
      var v :| v in f.Values && exists k :: k in f && FoldEq(k, name) && Fits(f[k], kind) && f[k] == v;
      Read(v)
  }

  /** The three outcomes of a field read, each by the keys that name the field. */
  lemma FieldValueMeaning(f: map<string, Json>, name: string, kind: FieldKind)
    ensures var r := FieldValue(f, name, kind);
      && (r.Absent? <==> forall k :: k in f && FoldEq(k, name) ==> !Fits(f[k], kind))
      && (r.Read? ==> exists k :: k in f && FoldEq(k, name) && f[k] == r.value)
      && (r.Read? ==> forall k :: k in f && FoldEq(k, name) && Fits(f[k], kind) ==> f[k] == r.value)
      && (r.Conflict? <==>
            exists k1, k2 :: k1 in f && k2 in f && FoldEq(k1, name) && FoldEq(k2, name) &&
              Fits(f[k1], kind) && Fits(f[k2], kind) && f[k1] != f[k2])
  {
  }

  /** A field named by exactly one key reads that key's value, as an exact lookup would. */
  lemma FieldValueOnly(f: map<string, Json>, name: string, kind: FieldKind, key: string)
    requires key in f && Fits(f[key], kind)
    requires forall k :: k in f ==> (FoldEq(k, name) <==> k == key)
    ensures FieldValue(f, name, kind) == Read(f[key]) && !Misfit(f, name, kind)
  {
    FieldValueMeaning(f, name, kind);
  }
}
