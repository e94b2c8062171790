/** Comparing job contents by cached hashes of their data instead of the data itself. */
module ContentHash {
  import opened Bytes
  import opened Messages

  const SHORT: nat := 4096

  /** The hash function; nothing is known of MD5 but that it is a function. */
  type Hash = bytes -> bytes

  /** Short data is its own hash; of long data only the beginning is hashed. */
  function ShortHash(md5: Hash, data: bytes): bytes {
    if |data| < SHORT then data else md5(data[..SHORT])
  }

  /** `JobContent::operator==` */
  predicate Same(md5: Hash, a: JobContent, b: JobContent) {
    && a.source == b.source && a.format == b.format && a.tag == b.tag && |a.data| == |b.data|
    && ShortHash(md5, a.data) == ShortHash(md5, b.data) && md5(a.data) == md5(b.data)
  }

  /** `InternalImpl::less` */
  predicate HashLess(md5: Hash, a: bytes, b: bytes) {
    if ShortHash(md5, a) != ShortHash(md5, b) then Less(ShortHash(md5, a), ShortHash(md5, b))
    else if md5(a) != md5(b) then Less(md5(a), md5(b))
    else false
  }

  /** `JobContent::operator<` */
  predicate ContentLess(md5: Hash, a: JobContent, b: JobContent) {
    if a.source != b.source then a.source < b.source
    else if a.format != b.format then a.format < b.format
    else if a.tag != b.tag then Less(a.tag, b.tag)
    else if |a.data| != |b.data| then |a.data| < |b.data|
    else HashLess(md5, a.data, b.data)
  }

  /** Contents below the limit are equal exactly when all of them is; hashing never confuses them. */
  lemma {:induction false} ShortContentsExact(md5: Hash, a: JobContent, b: JobContent)
    requires |a.data| < SHORT
    ensures Same(md5, a, b) <==> a == b
  {
  }

  /** Longer contents can be confused only where the hash function itself is, both on the beginning and on the whole. */
  lemma {:induction false} LongContentsCollide(md5: Hash, a: JobContent, b: JobContent)
    requires |a.data| >= SHORT
    ensures a == b ==> Same(md5, a, b)
    ensures Same(md5, a, b) && a != b ==>
            |b.data| >= SHORT && a.data != b.data && md5(a.data) == md5(b.data) && md5(a.data[..SHORT]) == md5(b.data[..SHORT])
  {
  }

  lemma {:induction false} HashOrder(md5: Hash, a: bytes, b: bytes, c: bytes)
    ensures !HashLess(md5, a, a)
    ensures HashLess(md5, a, b) && HashLess(md5, b, c) ==> HashLess(md5, a, c)
    ensures !HashLess(md5, a, b) && !HashLess(md5, b, a) <==> ShortHash(md5, a) == ShortHash(md5, b) && md5(a) == md5(b)
  {
    var x, y, z := ShortHash(md5, a), ShortHash(md5, b), ShortHash(md5, c);
    LessTrichotomy(x, y);
    LessTrichotomy(y, z);
    LessTrichotomy(x, z);
    LessTrichotomy(md5(a), md5(b));
    LessTrichotomy(md5(b), md5(c));
    LessTrichotomy(md5(a), md5(c));
    if Less(x, y) && Less(y, z) {
      LessTransitive(x, y, z);
    }
    if Less(md5(a), md5(b)) && Less(md5(b), md5(c)) {
      LessTransitive(md5(a), md5(b), md5(c));
    }
  }

  /** Whatever the hash function, `operator<` is a strict weak order and its equivalence is `operator==`. */
  lemma {:induction false} ContentOrder(md5: Hash, a: JobContent, b: JobContent, c: JobContent)
    ensures !ContentLess(md5, a, a)
    ensures ContentLess(md5, a, b) && ContentLess(md5, b, c) ==> ContentLess(md5, a, c)
    ensures !ContentLess(md5, a, b) && !ContentLess(md5, b, a) <==> Same(md5, a, b)
  {
    HashOrder(md5, a.data, b.data, c.data);
    LessTrichotomy(a.tag, b.tag);
    LessTrichotomy(b.tag, c.tag);
    LessTrichotomy(a.tag, c.tag);
    if Less(a.tag, b.tag) && Less(b.tag, c.tag) {
      LessTransitive(a.tag, b.tag, c.tag);
    }
    hide Less, HashLess, ShortHash;
  }

  /** The first thing that differs decides: source, format, tag, size, and then the hashes. */
  lemma {:induction false} FirstDifferenceDecides(md5: Hash, a: JobContent, b: JobContent)
    ensures a.source < b.source ==> ContentLess(md5, a, b)
    ensures a.source == b.source && a.format < b.format ==> ContentLess(md5, a, b)
    ensures a.source == b.source && a.format == b.format && Less(a.tag, b.tag) ==> ContentLess(md5, a, b)
    ensures a.source == b.source && a.format == b.format && a.tag == b.tag && |a.data| < |b.data| ==> ContentLess(md5, a, b)
    ensures a.(data := b.data) == b && |a.data| == |b.data| < SHORT && Less(a.data, b.data) ==> ContentLess(md5, a, b)
  {
    LessTrichotomy(a.tag, b.tag);
    LessTrichotomy(a.data, b.data);
  }

  /** The data of a content with the hashes that have been asked for so far. */
  class CachedData {
    const data: bytes
    var shortHash: bytes
    var fullHash: bytes

    /** A cached hash is right, or empty and not computed yet. */
    ghost predicate Valid(md5: Hash)
      reads this
    {
      (shortHash == [] || shortHash == ShortHash(md5, data)) && (fullHash == [] || fullHash == md5(data))
    }

    constructor (data: bytes)
      ensures this.data == data && forall md5: Hash :: Valid(md5)
    {
      this.data, shortHash, fullHash := data, [], [];
    }

    method GetShortHash(md5: Hash) returns (h: bytes)
      requires Valid(md5)
      modifies this
      ensures Valid(md5) && h == ShortHash(md5, data)
    {
      if |shortHash| == 0 && |data| < SHORT {
        shortHash := data;
      } else if |shortHash| == 0 {
        shortHash := md5(data[..SHORT]);
      }
      h := shortHash;
    }

    method GetFullHash(md5: Hash) returns (h: bytes)
      requires Valid(md5)
      modifies this
      ensures Valid(md5) && h == md5(data)
    {
      if |fullHash| == 0 {
        fullHash := md5(data);
      }
      h := fullHash;
    }

    /** `equal`: what was cached before makes no difference to the answer. */
    method Equal(md5: Hash, other: CachedData) returns (same: bool)
      requires Valid(md5) && other.Valid(md5)
      modifies this, other
      ensures Valid(md5) && other.Valid(md5)
      ensures same <==> ShortHash(md5, data) == ShortHash(md5, other.data) && md5(data) == md5(other.data)
    {
      var a := GetShortHash(md5);
      var b := other.GetShortHash(md5);
      same := a == b;
      if same {
        var c := GetFullHash(md5);
        var d := other.GetFullHash(md5);
        same := c == d;
      }
    }
  }
}
