/**
 Content addressing: hashes, the encodings they stand for, and the Pack that
 stores encodings under their hashes.

 SHA-256 is idealised as a free constructor: `Sum` is injective and never
 yields the blank hash.  The two Merkle encodings are separate constructors
 because their serialised sizes (8 + 32n and 16 + 32n bytes) never coincide.
 */
module Hashing {

  newtype Byte = x: int | 0 <= x < 256

  type Bytes = seq<Byte>

  datatype Hash = Blank | Sum(blob: Blob)

  /** Everything a Pack can store. */
  datatype Blob =
    | NodeBlob(length: int, elements: seq<Hash>)
    | RootBlob(depth: int, degree: int, length: int, elements: seq<Hash>)
    | ValueBlob(bytes: Bytes)

  datatype Err =
    | Ok
    | NotFound
    | DecodingFailed
    | InvalidRefs
    | InvalidEncodedRefs
    | IndexOutOfRange
    | InvalidSliceIndex
    | RefsIterating
    | InvalidDegree

  /** Flags with which a Refs is first used. */
  datatype Flags = Flags(hashTableIndex: bool, entireRefs: bool, lazyUpdating: bool)

  type Objects = map<Hash, Blob>

  /** Every value is stored under its own hash. */
  ghost predicate ContentAddressed(objects: Objects) {
    Addressed(objects) == true
  }

  ghost predicate Addressed(objects: Objects) {
    forall h <- objects :: h == Sum(objects[h])
  }

  const MAX_DEGREE := 1024

  predicate ValidDegree(degree: int) {
    2 <= degree <= MAX_DEGREE
  }

  class Pack {
    var objects: Objects
    var flags: Flags
    var degree: int

    ghost predicate Valid()
      reads this
    {
      ContentAddressed(objects) && ValidDegree(degree)
    }

    constructor (degree: int, flags: Flags)
      requires ValidDegree(degree)
      ensures Valid() && objects == map[] && this.degree == degree && this.flags == flags
    {
      this.objects, this.degree, this.flags := map[], degree, flags;
    }

    method Get(key: Hash) returns (err: Err, val: Blob)
      ensures err == Ok <==> key in objects
      ensures err == Ok ==> val == objects[key]
      ensures err != Ok ==> err == NotFound
    {
      if key in objects {
        err, val := Ok, objects[key];
      } else {
        err, val := NotFound, ValueBlob([]);
      }
    }

    method Set(key: Hash, val: Blob)
      requires Valid() && key == Sum(val)
      modifies this`objects
      ensures Valid() && objects == old(objects)[key := val]
    {
      objects := objects[key := val];
    }
  }
}
