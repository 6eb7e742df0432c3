/**
 The value `JSON.parse` hands back, and the keys a `for…in` loop visits on it.
 The text of the blob and the parser are not modelled: a stored blob is seen through its parsed value.
 */
module Json {
  import opened Text

  datatype Json =
    | JNull
    | JBool(b: bool)
    | JNumber(n: real)
    | JString(s: string)
    | JArray(elems: seq<Json>)
    | JObject(fields: map<string, Json>)

  /** Elements of a sequence keyed by their decimal index, as `for…in` enumerates an array or a string. */
  function IndexKeyed(xs: seq<Json>): (m: map<string, Json>)
    ensures forall i :: 0 <= i < |xs| ==> NatToString(i) in m && m[NatToString(i)] == xs[i]
    ensures forall k :: k in m ==> exists i :: 0 <= i < |xs| && k == NatToString(i)
  {
    forall i, j | 0 <= i < |xs| && 0 <= j < |xs| && NatToString(i) == NatToString(j)
      ensures i == j
    {
      NatToStringInjective(i, j);
    }
    map i | 0 <= i < |xs| :: NatToString(i) := xs[i]
  }

  /**
   The (key, value) pairs `for (const k in v)` visits with `v[k]`: an object's own fields, an array's
   elements under "0", "1", ..., a string's characters as one-character strings under the same keys,
   and nothing for null, booleans and numbers.
   */
  function Entries(v: Json): map<string, Json>
  {
    match v
    case JObject(fields) => fields
    case JArray(elems) => IndexKeyed(elems)
    case JString(s) => IndexKeyed(seq(|s|, i requires 0 <= i < |s| => JString([s[i]])))
    case _ => map[]
  }

  /** The keys `for…in` visits on a sequence of length `n`: the numerals of 0 .. n - 1. */
  ghost predicate IsIndexKey(k: string, n: nat)
  {
    exists i :: 0 <= i < n && k == NatToString(i)
  }

  /** `IndexKeyed` holds exactly the index keys. */
  lemma IndexKeyedKeys(xs: seq<Json>, k: string)
    ensures k in IndexKeyed(xs) <==> IsIndexKey(k, |xs|)
  {
    if IsIndexKey(k, |xs|) {
      var i :| 0 <= i < |xs| && k == NatToString(i);
    }
  }

  /**
   What `for (const k in v)` with `v[k]` sees: an object's fields as they are; for an array or a
   string exactly the keys String(0) .. String(length - 1), each with its element (a string's
   element being its one-character string); nothing at all for null, a boolean or a number.
   */
  lemma EntriesMeaning(v: Json)
    ensures v.JObject? ==> Entries(v) == v.fields
    ensures v.JArray? ==> forall k :: k in Entries(v) <==> IsIndexKey(k, |v.elems|)
    ensures v.JArray? ==> forall i :: 0 <= i < |v.elems| ==> Entries(v)[NatToString(i)] == v.elems[i]
    ensures v.JString? ==> forall k :: k in Entries(v) <==> IsIndexKey(k, |v.s|)
    ensures v.JString? ==> forall i :: 0 <= i < |v.s| ==> Entries(v)[NatToString(i)] == JString([v.s[i]])
    ensures v.JNull? || v.JBool? || v.JNumber? ==> Entries(v) == map[]
  {
    match v
    case JArray(elems) =>
      forall k {
        IndexKeyedKeys(elems, k);
      }
    case JString(s) =>
      var chars := seq(|s|, i requires 0 <= i < |s| => JString([s[i]]));
      assert Entries(v) == IndexKeyed(chars);
      forall k {
        IndexKeyedKeys(chars, k);
      }
    case _ =>
  }

}
