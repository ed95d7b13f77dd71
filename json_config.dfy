/** The decoded content of the worker's JSON configuration file, and the file
    itself, which the controllers read, change and write back whole. */
module ConfigStore {

  import opened Wrappers
  import opened Text

  /** A value as `json.load` returns it. Objects are maps: key order, which
      `json.dump` preserves, is not part of the model. */
  datatype Json =
    | JNull
    | JBool(b: bool)
    | JInt(i: int)
    | JFloat(r: real)
    | JString(s: string)
    | JArray(items: seq<Json>)
    | JObject(fields: map<string, Json>)

  /** Python's truth value of a decoded value (`if not config`). */
  predicate Truthy(j: Json) {
    match j
    case JNull => false
    case JBool(b) => b
    case JInt(i) => i != 0
    case JFloat(r) => r != 0.0
    case JString(s) => s != []
    case JArray(items) => items != []
    case JObject(fields) => fields != map[]
  }

  /** Python's `key in value`: a key of an object, an element of a list, a
      substring of a string; on a number, a boolean or `null` the test
      raises `TypeError`. */
  function HasKey(j: Json, key: string): (r: Call<bool>)
    ensures r.Raised? <==> !(j.JObject? || j.JArray? || j.JString?)
    ensures j.JObject? ==> r == Returned(key in j.fields)
  {
    match j
    case JObject(f) => Returned(key in f)
    case JArray(items) => Returned(JString(key) in items)
    case JString(s) => Returned(Contains(s, key))
    case _ => Raised
  }

  /** The configuration file on disk. `content` is `None` when the file is
      missing or does not hold valid JSON: loading it then fails. */
  class ConfigFile {
    var content: Option<Json>

    constructor (content: Option<Json>)
      ensures this.content == content
    {
      this.content := content;
    }

    /** `json.dump(config, f, indent=4)` into the file opened for writing;
        `writeOk` stands for whether opening and writing succeed, and a
        failed write leaves the file as it was. */
    method Save(doc: Json, writeOk: bool) returns (ok: bool)
      modifies this
      ensures ok == writeOk
      ensures content == (if writeOk then Some(doc) else old(content))
    {
      if writeOk {
        content := Some(doc);
      }
      ok := writeOk;
    }
  }
}
