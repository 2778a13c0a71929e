/**
 The content-addressed store of services/storage/index.js and what its server hands to it
 (services/storage/server.js, lines 70 to 88 and 145 to 160).
 */
module Storage {
  import opened Results

  /**
   A JSON value with its text; isObject says whether it is an object or an array. A packet is an
   object marked as a routing packet; inner is the payload it carries.
   */
  datatype Payload = Plain(text: string, isObject: bool) | Packet(text: string, inner: Payload)

  type Cas = map<string, Payload>

  predicate IsObject(p: Payload) {
    p.Packet? || p.isObject
  }

  /** The server stores what a routing packet carries instead of the packet. */
  function Kept(p: Payload): Payload {
    if p.Packet? then p.inner else p
  }

  /** A store request succeeds with an object, a packet only if its signature is accepted. */
  predicate Storable(p: Payload, verified: bool) {
    IsObject(Kept(p)) && (p.Packet? ==> verified)
  }

  class ContentStore {
    const hash: string -> string
    var store: Cas

    constructor (hash: string -> string)
      ensures store == map[] && this.hash == hash
    {
      this.hash, store := hash, map[];
    }

    function GenerateHash(payload: Payload): string {
      hash(payload.text)
    }

    method StoreObject(payload: Payload) returns (hashId: string)
      modifies this
      ensures hashId == hash(payload.text)
      ensures store == old(store)[hashId := payload]
    {
      hashId := GenerateHash(payload);
      store := store[hashId := payload];
    }

    method GetObject(hashId: string) returns (r: Option<Payload>)
      ensures r == if hashId in store then Some(store[hashId]) else None
    {
      r := if hashId in store then Some(store[hashId]) else None;
    }

    method VerifyObject(payload: Payload, hashId: string) returns (ok: bool)
      ensures ok == (hash(payload.text) == hashId)
    {
      ok := GenerateHash(payload) == hashId;
    }
  }

  /** Every entry verifies against its key. */
  ghost predicate Sound(hash: string -> string, cas: Cas) {
    forall h :: h in cas ==> hash(cas[h].text) == h
  }

  /** No two of the payloads have the same hash. */
  ghost predicate CollisionFree(hash: string -> string, ps: set<Payload>) {
    forall a, b :: a in ps && b in ps && hash(a.text) == hash(b.text) ==> a == b
  }

  /** The store after objects were stored in turn. */
  function StoreAll(hash: string -> string, ps: seq<Payload>): Cas {
    if ps == [] then map[] else StoreAll(hash, ps[..|ps| - 1])[hash(ps[|ps| - 1].text) := ps[|ps| - 1]]
  }

  lemma {:induction false} StoreAllSound(hash: string -> string, ps: seq<Payload>)
    ensures var cas := StoreAll(hash, ps);
      Sound(hash, cas) && (forall h :: h in cas ==> cas[h] in ps) && forall p :: p in ps ==> hash(p.text) in cas
  {
    if ps != [] {
      var before := ps[..|ps| - 1];
      StoreAllSound(hash, before);
      forall p | p in ps ensures p == ps[|ps| - 1] || p in before {
      }
    }
  }

  /**
   Storage is immutable: whatever else was stored before and after it, an object is found under its hash,
   and only objects that verify are found.
   */
  lemma {:induction false} StoredIsFound(hash: string -> string, ps: seq<Payload>, p: Payload)
    requires CollisionFree(hash, set q | q in ps) && p in ps
    ensures var cas := StoreAll(hash, ps);
      hash(p.text) in cas && cas[hash(p.text)] == p && forall h :: h in cas && cas[h] == p <==> h == hash(p.text)
  {
    StoreAllSound(hash, ps);
  }
}
