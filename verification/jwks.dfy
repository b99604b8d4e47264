/**
 The key discovery document, a JWK Set (section 5 of RFC 7517), and the
 handler's read of the key identifier of its first key.
 */
module Jwks {
  import opened Options
  import opened Js
  import Hex

  /** `jwks.keys[0].kid`, with the TypeError of whichever step reads a
      property of undefined or null. */
  function KidOf(jwks: Json): (r: Completion<Value>)
    ensures r.Throw? ==> r.exception.kind == TypeError
  {
    var keys :- Get(Val(jwks), Keys);
    var first :- Index0(keys);
    Get(first, Kid)
  }

  /** The members of the one entry tools/generate-jwks.js exports, in the
      order they are written: an RSA key for signature use with RS256,
      identified by the hex of 16 random bytes; `e` and `n` are the public
      exponent and modulus. */
  function EntryMembers(kidBytes: seq<Hex.byte>, e: string, n: string): seq<(string, Json)>
    requires |kidBytes| == 16
  {
    [("kty", JStr("RSA")), ("kid", JStr(Hex.Encode(kidBytes))), ("use", JStr("sig")),
     ("alg", JStr("RS256")), ("e", JStr(e)), ("n", JStr(n))]
  }

  /** The entry and the document as `JSON.parse` reads them back from the file. */
  function ProvisionedEntry(kidBytes: seq<Hex.byte>, e: string, n: string): Json
    requires |kidBytes| == 16
  {
    JObj(ObjectOf(EntryMembers(kidBytes, e, n)))
  }

  function ProvisionedSet(kidBytes: seq<Hex.byte>, e: string, n: string): Json
    requires |kidBytes| == 16
  {
    JObj(ObjectOf([("keys", JArr([ProvisionedEntry(kidBytes, e, n)]))]))
  }

  /** For a provisioned document the handler reads the 32-character hex key
      identifier of its only entry, and that entry declares RS256 for signatures. */
  lemma ProvisionedKid(kidBytes: seq<Hex.byte>, e: string, n: string)
    requires |kidBytes| == 16
    ensures KidOf(ProvisionedSet(kidBytes, e, n)) == Normal(Val(JStr(Hex.Encode(kidBytes))))
    ensures var kid := Hex.Encode(kidBytes);
      |kid| == 32 && Hex.IsHexString(kid) && Hex.Decode(kid) == Some(kidBytes)
    ensures Lookup(ProvisionedEntry(kidBytes, e, n).members, "alg") == Some(JStr("RS256"))
    ensures Lookup(ProvisionedEntry(kidBytes, e, n).members, "use") == Some(JStr("sig"))
  {
    Hex.DecodeEncode(kidBytes);
    var ms := EntryMembers(kidBytes, e, n);
    ObjectOfDistinct(ms, 1);
    ObjectOfDistinct(ms, 2);
    ObjectOfDistinct(ms, 3);
    ObjectOfDistinct([("keys", JArr([ProvisionedEntry(kidBytes, e, n)]))], 0);
    KidOfFirstEntry(ProvisionedSet(kidBytes, e, n).members, [ProvisionedEntry(kidBytes, e, n)]);
  }

  /** For a document whose `keys` member is a non-empty array of objects, the
      handler's kid is the `kid` member of the first entry, or undefined
      when that entry has none. */
  lemma KidOfFirstEntry(members: map<string, Json>, entries: seq<Json>)
    requires Lookup(members, "keys") == Some(JArr(entries))
    requires entries != [] && entries[0].JObj?
    ensures var kid := Lookup(entries[0].members, "kid");
      KidOf(JObj(members)) == Normal(if kid.Some? then Val(kid.value) else Undefined)
  {
  }

  /** The documents the handler cannot read a kid from, and the messages it
      reports for them. */
  lemma KidOfFailures(members: map<string, Json>)
    ensures KidOf(JNull) == Throw(ReadError("null", "keys"))
    ensures Lookup(members, "keys") == None ==> KidOf(JObj(members)) == Throw(ReadError("undefined", "0"))
    ensures Lookup(members, "keys") == Some(JArr([])) ==> KidOf(JObj(members)) == Throw(ReadError("undefined", "kid"))
    ensures Lookup(members, "keys") == Some(JNull) ==> KidOf(JObj(members)) == Throw(ReadError("null", "0"))
    ensures forall es :: KidOf(JArr(es)) == Throw(ReadError("undefined", "kid"))
  {
  }
}
