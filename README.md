# fwupd device record, in Dafny

This project models `FuDevice`, the per-device record of the fwupd firmware
update daemon, together with the constants it depends on:

- **`fu_device.dfy`** (module `FuDevice`): the record in `src/fu-device.c`, as a class `Device`.
  - It has two fields: an optional equivalent id and a string-to-string metadata table.
  - Each accessor is a method. Its contract states the new state in full, including what it leaves unchanged.
  - A C string that may be NULL is an `Option<string>`.
  - The value-level functions `Lookup` and `Insert` specify the table operations.
  - The lemmas cover one call (set then get, other keys untouched, NULL arguments) and any sequence of calls (the last write wins).
- **`fu_device_keys.dfy`** (module `DeviceKeys`): the 24 `FU_DEVICE_KEY_*` defines of `src/fu-device.h` and the type annotation beside each (`s`, `t` or internal only).
- **`fwupd_enums.dfy`** (module `FwupdEnums`): the enumerations of `libfwupd/fwupd-enums.h`.
  - Each enumeration is kept as it is declared: its enumerators in order, each with the initializer it is written with, if any.
  - The values come from the C rule for enumeration constants (section 6.7.2.2 of ISO/IEC 9899:2011), so the implicit `*_LAST` sentinels are computed, not copied.
  - The flag enumerations are proved to be disjoint single bits between `NONE = 0` and a sentinel that is no single bit, though each sentinel is the union of two flags.
- **`fu_device_ownership.dfy`** (module `EquivalentIdStorage`): `fu_device_set_equivalent_id` over a heap of C string buffers.
  - It models the order of the release and the copy, which the value model cannot see.
  - It records the self-assignment defect listed under Findings, next to the corrected setter.
- **`wrappers.dfy`** (module `Wrappers`): the `Option` type.

## Model

| member | source | states |
|---|---|---|
| FuDevice.Device.constructor | src/fu-device.c:106-111 | a new device has no equivalent id and an empty metadata table |
| FuDevice.Device.GetEquivalentId | src/fu-device.c:48-53 | returns the stored id, NULL when none is set, and changes nothing |
| FuDevice.Device.SetEquivalentId | src/fu-device.c:59-65 | the id becomes the argument, NULL included; the metadata table is unchanged |
| FuDevice.Device.GetMetadata | src/fu-device.c:71-77 | returns a value exactly when the key is non-NULL and present, and then it is the stored value; changes nothing |
| FuDevice.Device.SetMetadata | src/fu-device.c:83-90 | a NULL key or value leaves the table as it was; otherwise the key is bound to the value, replacing any old value; the id is unchanged |
| FuDevice.GetAfterSet | src/fu-device.c:76-89 | after setting a key to a value, getting that key returns the value |
| FuDevice.SetLeavesOtherKeys | src/fu-device.c:83-90 | setting one key, with any arguments, leaves the value of every other key unchanged |
| FuDevice.SetNullIsNoOp | src/fu-device.c:87-88 | a NULL key or a NULL value leaves the table unchanged |
| FuDevice.SetOverwrites | src/fu-device.c:89 | setting a present key keeps the same keys and size; setting a new key adds exactly that key, so the size grows by one |
| FuDevice.GetMissing | src/fu-device.c:75-76 | a NULL key finds nothing; a non-NULL key finds nothing exactly when it is not in the table |
| FuDevice.WellKnownKeysIndependent | src/fu-device.h:38-61 | writing one well-known key never changes the value of a different well-known key |
| FuDevice.ReplayLookup | src/fu-device.c:83-90 | after any sequence of set calls, a key holds the value of the last call that set it with a non-NULL value, or its original value if there was none |
| FuDevice.NewDeviceAfterWrites | src/fu-device.c:106-111 | starting from the empty table of a new device, after any sequence of set calls, each key holds exactly its last written value, and a key never written is absent |
| FuDevice.ApplyWrites | src/fu-device.c:83-90 | a series of set calls made in order on a device leaves its table as `Replay` of those calls on the old table, and its id unchanged |
| FuDevice.NewDeviceWithWrites | src/fu-device.c:131-136 | a device made by `fu_device_new`, then given any series of set calls, has no id and each key holds exactly its last written value |
| EquivalentIdStorage.SetAsWritten | src/fu-device.c:63-64 | releasing the stored id before copying the argument goes wrong exactly when the argument points into the stored id's buffer (the stored pointer itself or any position after it); otherwise the new id holds the argument's string |
| EquivalentIdStorage.PointerIntoStoredIdReadsFreedBuffer | src/fu-device.c:63-64 | as written, setting the id to the stored pointer, or to a pointer further into the same buffer, reads the buffer line 63 has just released |
| EquivalentIdStorage.SetCorrected | src/fu-device.c:59-65 | with the copy taken first, the new id holds the argument's string, in a newly allocated buffer, for every argument, a pointer into the stored id included; the old buffer is released, every other buffer is untouched, and no other buffer appears |
| EquivalentIdStorage.AgreeUnlessAliased | src/fu-device.c:63-64 | the code as written and the corrected setter give the same heap and id whenever the argument does not point into the stored id's buffer |
| DeviceKeys.KeyName | src/fu-device.h:38-61 | the string each of the 24 defines expands to; each is non-empty and starts with a capital letter |
| DeviceKeys.KeyAnnotation | src/fu-device.h:38-61 | the annotation beside each define; the keys annotated `t` are exactly those named "Size" and "Trusted" |
| DeviceKeys.KeyNamesDistinct | src/fu-device.h:38-61 | the 24 key strings are pairwise distinct |
| DeviceKeys.FlagsKeyIsReserved | src/fu-device.h:41 | the flags key is the literal "Flags" and is internal only |
| DeviceKeys.InternalOnlyKeys | src/fu-device.h:41-45 | a key is internal only exactly when it is Flags, VersionNew, VersionOld or FilenameCab |
| DeviceKeys.U64Keys | src/fu-device.h:38-61 | Size and Trusted are the only keys annotated `t`; every key that is neither one of these nor internal only is annotated `s` |
| FwupdEnums.DeviceIdAny | libfwupd/fwupd-enums.h:31 | the wildcard device id `FWUPD_DEVICE_ID_ANY`, the string "*" |
| FwupdEnums.StatusDecl | libfwupd/fwupd-enums.h:38-49 | the FwupdStatus enumerators in order, none with an initializer |
| FwupdEnums.TrustFlagDecl | libfwupd/fwupd-enums.h:56-62 | the FwupdTrustFlags enumerators in order, with initializers 0, `1 << 0`, `1 << 1` and none for LAST |
| FwupdEnums.DeviceFlagDecl | libfwupd/fwupd-enums.h:71-80 | the FwupdDeviceFlags enumerators in order, with initializers 0, `1 << 0` to `1 << 4` and none for LAST |
| FwupdEnums.InstallFlagDecl | libfwupd/fwupd-enums.h:87-94 | the FwupdInstallFlags enumerators in order, with initializers 0, 1, 2, 4 and none for LAST |
| FwupdEnums.UpdateStateDecl | libfwupd/fwupd-enums.h:101-108 | the FwupdUpdateState enumerators in order, none with an initializer |
| FwupdEnums.ValuesFromRule | libfwupd/fwupd-enums.h:38-108 | the computed values follow the C rule from any start value: initializer if written, otherwise the start value for the first enumerator and the previous value plus one for a later one |
| FwupdEnums.ValuesRule | libfwupd/fwupd-enums.h:38-108 | the values of a declaration follow the C rule: initializer if written, 0 for an uninitialised first enumerator, previous plus one otherwise |
| FwupdEnums.ImplicitValuesArePositions | libfwupd/fwupd-enums.h:38-49 | in a declaration with no initializers, each enumerator's value is its position |
| FwupdEnums.StatusValues | libfwupd/fwupd-enums.h:38-49 | FwupdStatus runs 0 to 8 consecutively, UNKNOWN = 0, SCHEDULING = 7, LAST = 8 |
| FwupdEnums.UpdateStateValues | libfwupd/fwupd-enums.h:101-108 | FwupdUpdateState runs 0 to 4 consecutively, FAILED = 3, LAST = 4 |
| FwupdEnums.DeviceFlagValues | libfwupd/fwupd-enums.h:71-80 | the device flags are NONE = 0, then 1, 2, 4, 8, 16, and the implicit LAST = 17 |
| FwupdEnums.TrustFlagValues | libfwupd/fwupd-enums.h:56-62 | the trust flags are NONE = 0, PAYLOAD = 1, METADATA = 2, and the implicit LAST = 3 |
| FwupdEnums.InstallFlagValues | libfwupd/fwupd-enums.h:87-94 | the install flags are NONE = 0, OFFLINE = 1, ALLOW_REINSTALL = 2, ALLOW_OLDER = 4, and the implicit LAST = 5 |
| FwupdEnums.Pow2IsSingleBit | libfwupd/fwupd-enums.h:73-77 | every `1 << k` has exactly one bit set |
| FwupdEnums.SingleBitIsPow2 | libfwupd/fwupd-enums.h:73-77 | every value with exactly one bit set is `1 << k` for some k |
| FwupdEnums.NoCommonBitMeansNoSharedBit | libfwupd/fwupd-enums.h:72-77 | the disjointness test used for flags holds exactly when no bit position is set in both values, which is C's `(a & b) == 0` |
| FwupdEnums.BitOrBits | libfwupd/fwupd-enums.h:72-77 | a bit of `BitOr(a, b)` is set exactly when it is set in `a` or in `b`, as for C's bitwise or |
| FwupdEnums.SentinelsAreFlagUnions | libfwupd/fwupd-enums.h:56-94 | each `*_LAST` sentinel is the union of two real flags: device LAST = INTERNAL or LOCKED, trust LAST = PAYLOAD or METADATA, install LAST = OFFLINE or ALLOW_OLDER (bitwise) |
| FwupdEnums.DeviceFlagsAreFlagEnum | libfwupd/fwupd-enums.h:71-80 | FwupdDeviceFlags as declared is a flag enumeration: NONE is 0, the flags are disjoint single bits fitting the 64-bit flag word, and LAST is no single bit |
| FwupdEnums.TrustFlagsAreFlagEnum | libfwupd/fwupd-enums.h:56-62 | FwupdTrustFlags as declared is a flag enumeration |
| FwupdEnums.InstallFlagsAreFlagEnum | libfwupd/fwupd-enums.h:87-94 | FwupdInstallFlags as declared is a flag enumeration |

## Left out

- The variant codec is not modelled: `fu_device_to_variant`, `fu_device_get_metadata_as_variant` and `fu_device_set_metadata_from_iter` (src/fu-device.h:82, 99, 103). They are only declared, and their bodies are not part of this model.
- The id, flags, guid and display-name accessors (src/fu-device.h:83-96) are not modelled, including `fu_device_set_flags` with its full `guint64` and `fu_device_add_flag`. They are only declared, and no body for them is part of this model. The flag values are proved to fit the 64-bit flag word.
- The enum string converters `fwupd_*_to_string` and `fwupd_*_from_string` (libfwupd/fwupd-enums.h:110-117) are not modelled: they are only declared.
- The D-Bus path, service and interface names (libfwupd/fwupd-enums.h:27-29) are left out: they concern transport only.
- GObject machinery is left out: type registration, class init, finalize, reference counting and `g_free` ownership.
  - Strings are values here, so the copies that `g_strdup` makes need no modelling: nothing a caller does to its buffers afterwards can reach the record.
  - For the same reason, the model does not capture that `fu_device_finalize` never frees the equivalent id.
- FuDevice.Device.SetEquivalentId: does not capture pointer aliasing. src/fu-device.c:63-64 release the stored id before copying the argument, so passing the stored id, or a pointer into it, reads a released buffer. The value model behaves like the corrected setter instead. The defect is modelled in `EquivalentIdStorage` and listed under Findings.
- FuDevice.Device.GetEquivalentId and FuDevice.Device.GetMetadata: the C getters return pointers into the record, not copies. A later set of the id, or of the same metadata key, releases the buffer such a pointer designates (the `g_free` value destructor set up at src/fu-device.c:109-110). The model's returned values stay valid, so it does not capture that invalidation.
- C keys and values are NUL-terminated byte strings compared by `g_str_equal`, while the model's strings are `seq<char>`. A model string containing a NUL character, or a character that is not a byte, has no C counterpart. Nothing proved depends on this.
- The `FU_IS_DEVICE` checks are left out: a Dafny object reference of type `Device` is always a device.
- The critical warnings that `g_return_if_fail` (set, src/fu-device.c:87-88) and `g_return_val_if_fail` (get, src/fu-device.c:75) log on a NULL key or value are left out; only the early return is modelled. The model assumes these checks are compiled in: built with `G_DISABLE_CHECKS`, a NULL value would replace the stored value with NULL and a NULL key would reach `g_str_hash`.
- `docs/website/upload.php`, a web upload handler, is left out: database, file and HTTP I/O.
- Nothing keeps the reserved key `"Flags"` out of the metadata table. `fu_device_set_metadata` stores any non-NULL key, and the model follows that code: `SetMetadata` accepts `"Flags"` like any other key.

## Findings

| source | as written | input that shows it | evidently intended | confidence | as-written member | corrected member |
|---|---|---|---|---|---|---|
| src/fu-device.c:63-64 | `g_free` releases the stored id, and only then does `g_strdup` copy the argument | `fu_device_set_equivalent_id (d, fu_device_get_equivalent_id (d))` on a device whose id is set, or the same call with `+ n` to strip a prefix: the argument points into the buffer just released | the id ends up holding the argument's string for every argument, a pointer into the stored id included (copy first, then release) | medium; not executed | EquivalentIdStorage.PointerIntoStoredIdReadsFreedBuffer | EquivalentIdStorage.SetCorrected |
