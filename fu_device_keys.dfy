/**
 * The well-known metadata keys of src/fu-device.h.
 *
 * Each `FU_DEVICE_KEY_*` define names a metadata key and carries a comment
 * giving the type the key travels as: `s` (a string), `t` (an unsigned 64-bit
 * integer), or "internal only" (never sent to clients).
 */
module DeviceKeys {

  /** The 24 key defines, in header order. */
  datatype Key =
    | Version | Provider | Guid | Flags | DisplayName | VersionNew | VersionOld | FilenameCab
    | VersionLowest | Vendor | Name | Summary | Description | License | UrlHomepage | Size
    | PendingState | PendingError | Trusted | FirmwareHash | UpdateVersion | UpdateHash | UpdateUri
    | UpdateDescription

  /** The annotation written beside each key define. */
  datatype Annotation = Str | U64 | InternalOnly

  /** The string each define expands to: a non-empty name starting with a capital letter. */
  function KeyName(k: Key): (name: string)
    ensures |name| > 0 && 'A' <= name[0] <= 'Z'
  {
    match k
    case Version => "Version"
    case Provider => "Provider"
    case Guid => "Guid"
    case Flags => "Flags"
    case DisplayName => "DisplayName"
    case VersionNew => "VersionNew"
    case VersionOld => "VersionOld"
    case FilenameCab => "FilenameCab"
    case VersionLowest => "VersionLowest"
    case Vendor => "Vendor"
    case Name => "Name"
    case Summary => "Summary"
    case Description => "Description"
    case License => "License"
    case UrlHomepage => "UrlHomepage"
    case Size => "Size"
    case PendingState => "PendingState"
    case PendingError => "PendingError"
    case Trusted => "Trusted"
    case FirmwareHash => "FirmwareHash"
    case UpdateVersion => "UpdateVersion"
    case UpdateHash => "UpdateHash"
    case UpdateUri => "UpdateUri"
    case UpdateDescription => "UpdateDescription"
  }

  /** The annotation of each define: `s`, `t` or "internal only"; only "Size" and "Trusted" travel as `t`. */
  function KeyAnnotation(k: Key): (a: Annotation)
    ensures a == U64 <==> KeyName(k) == "Size" || KeyName(k) == "Trusted"
  {
    match k
    case Flags | VersionNew | VersionOld | FilenameCab => InternalOnly
    case Size | Trusted => U64
    case _ => Str
  }

  /** No two defines expand to the same string, so every well-known key names its own entry. */
  lemma KeyNamesDistinct(a: Key, b: Key)
    requires a != b
    ensures KeyName(a) != KeyName(b)
  {
  }

  /** The reserved flags key is the literal "Flags" and is internal only. */
  lemma FlagsKeyIsReserved()
    ensures KeyName(Flags) == "Flags"
    ensures KeyAnnotation(Flags) == InternalOnly
  {
  }

  /** Exactly four keys are internal only: Flags, VersionNew, VersionOld and FilenameCab. */
  lemma InternalOnlyKeys(k: Key)
    ensures KeyAnnotation(k) == InternalOnly <==> k in {Flags, VersionNew, VersionOld, FilenameCab}
  {
  }

  /** Exactly two keys travel as unsigned 64-bit integers, Size and Trusted; every other key is a string. */
  lemma U64Keys(k: Key)
    ensures KeyAnnotation(k) == U64 <==> k == Size || k == Trusted
    ensures KeyAnnotation(k) == Str <==> k !in {Flags, VersionNew, VersionOld, FilenameCab, Size, Trusted}
  {
  }
}
