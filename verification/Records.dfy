/** Messages, records and RDATA (internal/protocol/message.go, resource_record.go, types.go). */
module Records {
  import opened Octets

  const TYPE_A: uint16 := 1
  const TYPE_NS: uint16 := 2
  const TYPE_CNAME: uint16 := 5
  const TYPE_SOA: uint16 := 6
  const TYPE_PTR: uint16 := 12
  const TYPE_MX: uint16 := 15
  const TYPE_TXT: uint16 := 16
  const TYPE_AAAA: uint16 := 28
  const TYPE_SRV: uint16 := 33
  const TYPE_OPT: uint16 := 41
  const TYPE_DS: uint16 := 43
  const TYPE_RRSIG: uint16 := 46
  const TYPE_NSEC: uint16 := 47
  const TYPE_DNSKEY: uint16 := 48
  const TYPE_NSEC3: uint16 := 50
  const TYPE_CAA: uint16 := 257
  const TYPE_ANY: uint16 := 255

  const CLASS_IN: uint16 := 1

  const RCODE_NO_ERROR := 0
  const RCODE_SERVER_FAILURE := 2
  const RCODE_NAME_ERROR := 3

  type Address4 = a: Bytes | |a| == 4 witness [0, 0, 0, 0]
  type Address16 = a: Bytes | |a| == 16 witness [0, 0, 0, 0, 0, 0, 0, 0, 0, 0, 0, 0, 0, 0, 0, 0]

  datatype RData =
    | AData(address4: Address4)
    | AAAAData(address16: Address16)
    | CNAMEData(cname: Bytes)
    | NSData(nsName: Bytes)
    | PTRData(ptrName: Bytes)
    | MXData(preference: uint16, exchange: Bytes)
    | SOAData(mname: Bytes, rname: Bytes, serial: uint32, refresh: uint32, retry: uint32, expire: uint32, minimum: uint32)
    | TXTData(texts: seq<Bytes>)
    | SRVData(priority: uint16, weight: uint16, port: uint16, target: Bytes)
    | CAAData(caaFlags: byte, tag: Bytes, value: Bytes)
    | RRSIGData(typeCovered: uint16, algorithm: byte, labelCount: byte, originalTTL: uint32, expiration: uint32,
                inception: uint32, keyTag: uint16, signerName: Bytes, signature: Bytes)
    | DNSKEYData(keyFlags: uint16, protocol: byte, keyAlgorithm: byte, publicKey: Bytes)
    | DSData(dsKeyTag: uint16, dsAlgorithm: byte, digestType: byte, digest: Bytes)
    | NSECData(nextDomain: Bytes, typeBitmap: Bytes)
    | NSEC3Data(hashAlgorithm: byte, nsec3Flags: byte, iterations: uint16, salt: Bytes, nextHashed: Bytes, typeBitmap3: Bytes)
    | OPTData(udpSize: uint16, extRCode: byte, version: byte, optFlags: uint16, options: Bytes)
    | UnknownData(unknownType: uint16, data: Bytes)

  /** `data` is None for Go's nil; `raw` is the RawRData copy. */
  datatype ResourceRecord = ResourceRecord(name: Bytes, typ: uint16, class_: uint16, ttl: uint32, data: Option<RData>, raw: Bytes)

  datatype Question = Question(name: Bytes, typ: uint16, class_: uint16)

  datatype Header = Header(id: uint16, qr: bool, opcode: byte, aa: bool, tc: bool, rd: bool, ra: bool, z: byte, rcode: byte,
                           qdCount: uint16, anCount: uint16, nsCount: uint16, arCount: uint16)

  datatype Message = Message(header: Header, questions: seq<Question>, answers: seq<ResourceRecord>,
                             authorities: seq<ResourceRecord>, additionals: seq<ResourceRecord>)

  predicate HasParser(typ: uint16) {
    typ in [TYPE_A, TYPE_NS, TYPE_CNAME, TYPE_SOA, TYPE_PTR, TYPE_MX, TYPE_TXT, TYPE_AAAA, TYPE_SRV, TYPE_OPT,
            TYPE_DS, TYPE_RRSIG, TYPE_NSEC, TYPE_DNSKEY, TYPE_NSEC3, TYPE_CAA]
  }

  /** The fields decodeResourceRecord takes from the record header for an OPT record. */
  function OptFromHeader(class_: uint16, ttl: uint32, options: Bytes): RData {
    OPTData(class_, ttl / 0x100_0000, ttl / 0x1_0000 % 256, ttl % 0x1_0000, options)
  }

  /** The RDATA is present and of the kind the record's type announces. */
  predicate DataFits(rr: ResourceRecord) {
    match rr.data
    case None => false
    case Some(d) =>
      match d
      case AData(_) => rr.typ == TYPE_A
      case AAAAData(_) => rr.typ == TYPE_AAAA
      case CNAMEData(_) => rr.typ == TYPE_CNAME
      case NSData(_) => rr.typ == TYPE_NS
      case PTRData(_) => rr.typ == TYPE_PTR
      case MXData(_, _) => rr.typ == TYPE_MX
      case SOAData(_, _, _, _, _, _, _) => rr.typ == TYPE_SOA
      case TXTData(_) => rr.typ == TYPE_TXT
      case SRVData(_, _, _, _) => rr.typ == TYPE_SRV
      case CAAData(_, _, _) => rr.typ == TYPE_CAA
      case RRSIGData(_, _, _, _, _, _, _, _, _) => rr.typ == TYPE_RRSIG
      case DNSKEYData(_, _, _, _) => rr.typ == TYPE_DNSKEY
      case DSData(_, _, _, _) => rr.typ == TYPE_DS
      case NSECData(_, _) => rr.typ == TYPE_NSEC
      case NSEC3Data(_, _, _, _, _, _) => rr.typ == TYPE_NSEC3
      case OPTData(_, _, _, _, options) => rr.typ == TYPE_OPT && d == OptFromHeader(rr.class_, rr.ttl, options)
      case UnknownData(t, _) => rr.typ == t && !HasParser(t)
  }
}
