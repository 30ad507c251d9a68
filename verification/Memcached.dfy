/** A memcached server as its clients see it: records under keys, each write
    giving its record a new CAS value. */
module Memcached {
  import opened Bytes

  type Key = Octets

  /** Virtual buckets; there are 128 of them in use. */
  type Bucket = uint16

  /** A server address. */
  type Server = string

  datatype Item = Item(value: Octets, flags: uint32, expiry: uint32)

  datatype Record = Record(item: Item, cas: nat)

  /** Result of one request, in the terms of the client library. */
  datatype Rc = Success | NotFound | NotStored | DataExists | ConnectionFailure | OtherError

  datatype Node = Node(store: map<Key, Record>, nextCas: nat)
  {
    /** CAS values are nonzero and were all handed out before. */
    ghost predicate Valid() {
      nextCas > 0 && forall k :: k in store ==> 0 < store[k].cas < nextCas
    }

    function Lookup(k: Key): Option<Item> {
      if k in store then Some(store[k].item) else None
    }

    function Entry(k: Key): Option<Record> {
      if k in store then Some(store[k]) else None
    }

    function Put(k: Key, item: Item): Node {
      Node(store[k := Record(item, nextCas)], nextCas + 1)
    }

    function Remove(k: Key): Node {
      Node(store - {k}, nextCas)
    }

    /** ADD stores only where there is no record. */
    function Add(k: Key, item: Item): (Rc, Node) {
      if k in store then (DataExists, this) else (Success, Put(k, item))
    }

    /** REPLACE stores only over a record; a nonzero CAS must be the record's. */
    function Replace(k: Key, item: Item, cas: nat): (Rc, Node) {
      if k !in store then (NotFound, this)
      else if cas != 0 && store[k].cas != cas then (DataExists, this)
      else (Success, Put(k, item))
    }

    function Set(k: Key, item: Item): (Rc, Node) {
      (Success, Put(k, item))
    }

    function Delete(k: Key): (Rc, Node) {
      if k in store then (Success, Remove(k)) else (NotFound, this)
    }
  }

  /** `node'` came from `node` by writes and deletes: what is not as it was has a CAS
      handed out since. */
  ghost predicate Evolves(node: Node, node': Node) {
    && node.nextCas <= node'.nextCas
    && forall k :: k in node'.store ==>
         (k in node.store && node'.store[k] == node.store[k])
         || node.nextCas <= node'.store[k].cas < node'.nextCas
  }

  /** The bucket of a key: the low seven bits of a hash the model leaves open.
      Dafny's `%` is never negative, like the source's mask. */
  function VBucketForKey(hash: Key -> int, k: Key): Bucket {
    hash(k) % 128
  }

  /** Keys of Astaire's own records start with `astaire` and two backslashes. */
  const ASTAIRE_KEY_PREFIX: Key := [97, 115, 116, 97, 105, 114, 101, 92, 92]

  const ASTAIRE_TAG_KEY: Key := ASTAIRE_KEY_PREFIX + [116, 97, 103]

  predicate IsAstaireKey(k: Key) { ASTAIRE_KEY_PREFIX <= k }

  /** The tag is such a key, ending in `tag`. */
  lemma TagKey()
    ensures |ASTAIRE_TAG_KEY| == 12 && IsAstaireKey(ASTAIRE_TAG_KEY)
    ensures ASTAIRE_TAG_KEY[9..] == ['t' as int, 'a' as int, 'g' as int]
  {
  }

  lemma AstaireKeyMeans(k: Key)
    ensures IsAstaireKey(k) <==>
            && |k| >= 9 && k[0] == 'a' as int && k[1] == 's' as int && k[2] == 't' as int && k[3] == 'a' as int
            && k[4] == 'i' as int && k[5] == 'r' as int && k[6] == 'e' as int && k[7] == '\\' as int
            && k[8] == '\\' as int
  {
    if |k| >= 9 {
      assert IsAstaireKey(k) <==> k[..9] == ASTAIRE_KEY_PREFIX;
    }
  }
}
