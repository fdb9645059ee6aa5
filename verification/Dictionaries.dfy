/** What the attribute codec asks of a loaded dictionary. */
module Dictionaries {
  import opened Wrappers
  import opened Bytes

  /** Storage keys of a packet: a plain code, a (vendor, type) pair, or an EVS 4-tuple. */
  datatype Key =
    | Plain(code: byte)
    | Vsa(vendor: nat, vtype: nat)
    | Evs(parent: byte, slot: byte, vendorId: nat, vendorType: byte)

  datatype AttrType =
    | Byte | Short | Integer | Integer64 | Signed | Date | Ipaddr | Ipv6addr | Ifid | Ether
    | Variable
    | Tlv | Extended | LongExtended | EvsMarker

  datatype Attribute = Attribute(
    code: nat,
    kind: AttrType,
    vendor: Option<nat>,
    subs: map<byte, string>,
    concat: bool,
    virtual: bool,
    packed: bool)

  /** Octets of the type field, octets of the length field, continuation octet present. */
  datatype VendorFormat = VendorFormat(typeLen: nat, lenLen: nat, continuation: bool) {
    predicate Legal() {
      typeLen in {1, 2, 4} && lenLen in {0, 1, 2}
    }
  }

  const DEFAULT_FORMAT := VendorFormat(1, 1, false)

  type LegalFormat = f: VendorFormat | f.Legal() witness DEFAULT_FORMAT

  datatype Dictionary = Dictionary(
    index: map<Key, string>,
    attributes: map<string, Attribute>,
    formats: map<nat, LegalFormat>)
  {
    /** `attributes.get(_decode_key(key))`. */
    function AttrOf(key: Key): Option<Attribute> {
      if key in index && index[key] in attributes then Some(attributes[index[key]]) else None
    }

    predicate IsKind(key: Key, kind: AttrType) {
      AttrOf(key).Some? && AttrOf(key).value.kind == kind
    }

    predicate IsConcat(key: Key) { AttrOf(key).Some? && AttrOf(key).value.concat }

    predicate IsArray(key: Key) { AttrOf(key).Some? && AttrOf(key).value.packed }

    predicate IsVirtual(key: Key) { AttrOf(key).Some? && AttrOf(key).value.virtual }

    function FormatOf(vendor: nat): LegalFormat {
      if vendor in formats then formats[vendor] else DEFAULT_FORMAT
    }

    /** `_tlv_child_attr`: the declared attribute of a sub-code, if any. */
    function Child(parent: Option<Attribute>, code: byte): Option<Attribute> {
      if parent.Some? && code in parent.value.subs && parent.value.subs[code] in attributes
      then Some(attributes[parent.value.subs[code]])
      else None
    }

    /** The sub-code of `parent` is itself a `tlv` container. */
    predicate IsNested(parent: Option<Attribute>, code: byte) {
      Child(parent, code).Some? && Child(parent, code).value.kind == Tlv
    }

    predicate IsEvsSlot(parent: byte, slot: byte) {
      var child := Child(AttrOf(Plain(parent)), slot);
      child.Some? && child.value.kind == EvsMarker
    }
  }

  /** Wire size of the types the `array` option is meaningful for; None for all others. */
  function ArraySize(kind: AttrType): (size: Option<nat>)
    ensures size.Some? ==> size.value >= 1
  {
    match kind
    case Byte => Some(1)
    case Short => Some(2)
    case Integer => Some(4)
    case Integer64 => Some(8)
    case Signed => Some(4)
    case Date => Some(4)
    case Ipaddr => Some(4)
    case Ipv6addr => Some(16)
    case Ifid => Some(8)
    case Ether => Some(6)
    case _ => None
  }
}
