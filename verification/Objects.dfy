/**
 Object metadata, crates/mtp-rs/src/ptp/types/objects.rs: the fields a listing reads, and the
 typed write of one of them from a `GetObjectPropList` value.
 */
module Objects {
  import opened Common
  import opened DateTimes
  import opened Pack
  import DateText

  type Handle = u32
  type StorageId = u32

  const ROOT: Handle := 0
  const ALL: Handle := 0xFFFF_FFFF

  const FORMAT_UNDEFINED: u16 := 0x3000
  const FORMAT_ASSOCIATION: u16 := 0x3001

  /** `genericFolder` is the association type; thumbnails, image sizes and keywords are left out. */
  datatype ObjectInfo = ObjectInfo(
    handle: Handle, storage: StorageId, format: u16, protection: u16, size: u64, parent: Handle,
    genericFolder: bool, filename: Text, created: Option<DateTime>, modified: Option<DateTime>)
  {
    predicate IsFolder() { format == FORMAT_ASSOCIATION || genericFolder }
  }

  /** The association format makes a folder, and so does the association type of one; nothing else does. */
  lemma {:induction false} FoldersAre(o: ObjectInfo)
    ensures o.IsFolder() <==> o.genericFolder || o.format == 0x3001
  {
  }

  function DefaultInfo(handle: Handle): ObjectInfo {
    ObjectInfo(handle, 0, FORMAT_UNDEFINED, 0, 0, 0, false, [], None, None)
  }

  datatype Property =
    | StorageID | ObjectFormat | ProtectionStatus | ObjectSize | ObjectFileName | DateCreated | DateModified
    | ParentObject | OtherProperty(code: u16)

  /** A decoded value; unsigned integers of every width are one case, as every width that fits is taken. */
  datatype PropertyValue = Unsigned(n: u64) | Str(s: Text) | OtherValue

  /** Whether `v` can be written to the field of `p`. */
  predicate Fits(p: Property, v: PropertyValue) {
    match v
    case Str(_) => p in {ObjectFileName, DateCreated, DateModified}
    case Unsigned(n) =>
      || p == ObjectSize
      || (p in {StorageID, ParentObject} && n <= U32_MAX)
      || (p in {ObjectFormat, ProtectionStatus} && n <= 0xFFFF)
    case OtherValue => false
  }

  /** Writes the field `p` maps to; a value that doesn't fit changes nothing. */
  function SetProperty(info: ObjectInfo, p: Property, v: PropertyValue): ObjectInfo {
    if !Fits(p, v) then info
    else
      match p
      case ObjectFileName => info.(filename := v.s)
      case DateCreated => info.(created := DateText.Parse(DateText.Utf8(v.s)))
      case DateModified => info.(modified := DateText.Parse(DateText.Utf8(v.s)))
      case ObjectSize => info.(size := v.n)
      case StorageID => info.(storage := v.n)
      case ParentObject => info.(parent := v.n)
      case ObjectFormat => info.(format := v.n)
      case ProtectionStatus => info.(protection := v.n)
      case OtherProperty(_) => info
  }

  /** The content of a field, whatever its type. */
  datatype FieldValue = Number(n: nat) | Name(s: Text) | Moment(t: Option<DateTime>) | NoField | NoMeaning

  /** The field a property maps to. */
  function FieldOf(info: ObjectInfo, p: Property): FieldValue {
    match p
    case ObjectFileName => Name(info.filename)
    case DateCreated => Moment(info.created)
    case DateModified => Moment(info.modified)
    case ObjectSize => Number(info.size)
    case StorageID => Number(info.storage)
    case ParentObject => Number(info.parent)
    case ObjectFormat => Number(info.format)
    case ProtectionStatus => Number(info.protection)
    case OtherProperty(_) => NoField
  }

  /** What a value that fits says; a date that doesn't parse is no date. */
  function Said(p: Property, v: PropertyValue): FieldValue {
    match v
    case Unsigned(n) => Number(n)
    case Str(s) => if p == ObjectFileName then Name(s) else Moment(DateText.Parse(DateText.Utf8(s)))
    case OtherValue => NoMeaning
  }

  /** A value fits exactly when some object could have what it says in that field: the type and the width decide. */
  lemma {:induction false} FitsIsTyped(p: Property, v: PropertyValue)
    ensures Fits(p, v) <==> exists info: ObjectInfo :: FieldOf(info, p) == Said(p, v)
  {
    if Fits(p, v) {
      assert FieldOf(SetProperty(DefaultInfo(0), p, v), p) == Said(p, v);
    }
  }

  /** A write sets its own field to what the value says, if it fits, and no other field. */
  lemma {:induction false} SetPropertyWritesOneField(info: ObjectInfo, p: Property, v: PropertyValue)
    ensures var r := SetProperty(info, p, v);
            && FieldOf(r, p) == (if Fits(p, v) then Said(p, v) else FieldOf(info, p))
            && (forall q :: q != p ==> FieldOf(r, q) == FieldOf(info, q))
            && r.handle == info.handle && r.genericFolder == info.genericFolder
  {
  }
}
