/**
 Column kinds and column properties shared by the row encoder, the typed
 stores and their metadata.
 */
module Kinds {
  import opened Common

  /** The closed set of kinds a schema column can have. */
  datatype Kind =
    | BOOLEAN | TINYINT | SMALLINT | INTEGER | BIGINT | REAL | DOUBLE | INT128
    | VARCHAR
    | ARRAY | MAP | STRUCT

  /** Fixed-width kinds: stored inline, eligible for a bloom filter, no offset array. */
  predicate IsScalar(k: Kind) {
    k in {BOOLEAN, TINYINT, SMALLINT, INTEGER, BIGINT, REAL, DOUBLE, INT128}
  }

  /** Integer kinds whose values the model represents as mathematical integers. */
  predicate IsIntegral(k: Kind) {
    k in {TINYINT, SMALLINT, INTEGER, BIGINT, INT128}
  }

  /** Width in bytes of a fixed-width kind's native value. */
  function NativeWidth(k: Kind): (w: nat)
    requires IsScalar(k)
    ensures 1 <= w <= 16
  {
    match k
    case BOOLEAN => 1
    case TINYINT => 1
    case SMALLINT => 2
    case INTEGER => 4
    case BIGINT => 8
    case REAL => 4
    case DOUBLE => 8
    case INT128 => 16
  }

  /** 2 to the number of value bits of an integral kind: the size of its value range. */
  function Modulus(k: Kind): (m: nat)
    requires IsIntegral(k)
    ensures m >= 0x100 && m % 2 == 0
  {
    match k
    case TINYINT => 0x100
    case SMALLINT => 0x1_0000
    case INTEGER => 0x1_0000_0000
    case BIGINT => 0x1_0000_0000_0000_0000
    case INT128 => 0x1_0000_0000_0000_0000_0000_0000_0000_0000
  }

  /** `v` is a value of the signed integer type of kind `k`. */
  predicate InRange(k: Kind, v: int)
    requires IsIntegral(k)
  {
    -(Modulus(k) / 2) <= v < Modulus(k) / 2
  }

  /** Properties of a table column consumed by the stores and their metadata. */
  datatype Column = Column(withBloomFilter: bool, withDict: bool, defaultValue: seq<byte>)
}
