/** Path attributes as the library holds them in memory (include/libbgp/pattr.h). */
module PathAttr {
  import opened Wrappers

  const AS_SET: nat := 1
  const AS_SEQUENCE: nat := 2

  /** The value a two-octet field carries for an AS number that does not fit. */
  const AS_TRANS: nat := 23456

  datatype Segment = Segment(kind: nat, asns: seq<nat>)

  /** An IPv6 prefix: sixteen address bytes and a length. */
  datatype Prefix6 = Prefix6(addr: seq<bv8>, len: nat)

  /** An attribute's type together with the data of that type. */
  datatype Body =
    | Origin(origin: nat)
    | AsPath(segments: seq<Segment>, is4b: bool)
    | NextHop(hop: seq<bv8>)
    | Med(med: nat)
    | LocalPref(pref: nat)
    | AtomicAggregate
    | Aggregator(asn: nat, routerId: nat, wide: bool)
    | Community(values: seq<nat>)
    | As4Path(segments: seq<Segment>, is4b: bool)
    | As4Aggregator(asn: nat, routerId: nat)
    | MpReach6(nexthop: seq<bv8>, nlri: seq<Prefix6>)
    | MpUnreach6(withdrawn: seq<Prefix6>)
    | Unknown(raw: seq<bv8>)

  type Code = c: nat | c < 256

  datatype Attr = Attr(flags: bv8, code: Code, body: Body)

  /** An attribute list; a null entry is None. */
  type AttrList = seq<Option<Attr>>
}
