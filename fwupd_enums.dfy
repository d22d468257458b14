/**
 * The constants of libfwupd/fwupd-enums.h.
 *
 * Each C enumeration is kept as the list of its enumerators, in declaration
 * order, with the initializer each one is written with (if any).  Their values
 * are then computed by the C rule for enumeration constants (section 6.7.2.2
 * of ISO/IEC 9899:2011): an explicit initializer gives the value, an
 * enumerator without one is one more than the enumerator before it, and the
 * first one defaults to 0.  So the private `*_LAST` sentinels are derived, not
 * written down.
 */
module FwupdEnums {
  import opened Wrappers

  /** The wildcard device id, FWUPD_DEVICE_ID_ANY. */
  const DeviceIdAny: string := "*"

  /** One line of a C enum declaration: the enumerator it names and its initializer, if written. */
  datatype Enumerator<N> = Enumerator(name: N, init: Option<int>)

  /** 2 to the power n: `Pow2(n)` is the C expression `1 << n`. */
  function Pow2(n: nat): (r: nat)
    ensures r >= 1
  {
    if n == 0 then 1 else 2 * Pow2(n - 1)
  }

  /** The values of the enumerators of `decl`, when an enumerator without initializer at its head gets `next`. */
  function ValuesFrom<N>(decl: seq<Enumerator<N>>, next: int): (r: seq<int>)
    ensures |r| == |decl|
    decreases |decl|
  {
    if decl == [] then []
    else
      var v := if decl[0].init.Some? then decl[0].init.value else next;
      [v] + ValuesFrom(decl[1..], v + 1)
  }

  /** The values C gives to the enumerators of one declaration, in declaration order. */
  function Values<N>(decl: seq<Enumerator<N>>): (r: seq<int>)
    ensures |r| == |decl|
  {
    ValuesFrom(decl, 0)
  }

  lemma {:induction false} ValuesFromRule<N>(decl: seq<Enumerator<N>>, next: int)
    ensures forall i :: 0 <= i < |decl| && decl[i].init.Some? ==> ValuesFrom(decl, next)[i] == decl[i].init.value
    ensures |decl| > 0 && decl[0].init.None? ==> ValuesFrom(decl, next)[0] == next
    ensures forall i :: 0 < i < |decl| && decl[i].init.None? ==> ValuesFrom(decl, next)[i] == ValuesFrom(decl, next)[i - 1] + 1
    decreases |decl|
  {
    if decl != [] {
      var v := if decl[0].init.Some? then decl[0].init.value else next;
      ValuesFromRule(decl[1..], v + 1);
      var r := ValuesFrom(decl, next);
      assert r[1..] == ValuesFrom(decl[1..], v + 1);
      forall i | 0 < i < |decl| && decl[i].init.None? ensures r[i] == r[i - 1] + 1 {
        assert decl[1..][i - 1] == decl[i];
      }
    }
  }

  /**
   * The C rule: an enumerator with an initializer has the initializer's value,
   * the first enumerator, when it has none, is 0, and any later enumerator
   * without one is the enumerator before it plus one.
   */
  lemma ValuesRule<N>(decl: seq<Enumerator<N>>)
    ensures forall i :: 0 <= i < |decl| && decl[i].init.Some? ==> Values(decl)[i] == decl[i].init.value
    ensures |decl| > 0 && decl[0].init.None? ==> Values(decl)[0] == 0
    ensures forall i :: 0 < i < |decl| && decl[i].init.None? ==> Values(decl)[i] == Values(decl)[i - 1] + 1
  {
    ValuesFromRule(decl, 0);
  }

  /** When no enumerator has an initializer, the values are the positions 0, 1, 2, ... */
  lemma {:induction false} ImplicitValuesArePositions<N>(decl: seq<Enumerator<N>>, i: nat)
    requires forall j :: 0 <= j < |decl| ==> decl[j].init.None?
    requires i < |decl|
    ensures Values(decl)[i] == i
  {
    ValuesRule(decl);
    if i > 0 {
      ImplicitValuesArePositions(decl, i - 1);
    }
  }

  // ---------------------------------------------------------------------------
  // The declarations, as written in the header

  /** The enumerators of FwupdStatus, FWUPD_STATUS_UNKNOWN to FWUPD_STATUS_LAST. */
  datatype Status = Unknown | Idle | Loading | Decompressing | DeviceRestart | DeviceWrite | DeviceVerify | Scheduling | Last

  /** FwupdStatus: no enumerator has an initializer. */
  const StatusDecl: seq<Enumerator<Status>> := [
    Enumerator(Status.Unknown, None),
    Enumerator(Status.Idle, None),
    Enumerator(Status.Loading, None),
    Enumerator(Status.Decompressing, None),
    Enumerator(Status.DeviceRestart, None),
    Enumerator(Status.DeviceWrite, None),
    Enumerator(Status.DeviceVerify, None),
    Enumerator(Status.Scheduling, None),
    Enumerator(Status.Last, None)
  ]

  /** The enumerators of FwupdTrustFlags, FWUPD_TRUST_FLAG_NONE to FWUPD_TRUST_FLAG_LAST. */
  datatype TrustFlag = NoTrust | Payload | Metadata | TrustLast

  /** FwupdTrustFlags: NONE = 0, then `1 << 0`, `1 << 1`, then the sentinel without initializer. */
  const TrustFlagDecl: seq<Enumerator<TrustFlag>> := [
    Enumerator(NoTrust, Some(0)),
    Enumerator(Payload, Some(Pow2(0))),
    Enumerator(Metadata, Some(Pow2(1))),
    Enumerator(TrustLast, None)
  ]

  /** The enumerators of FwupdDeviceFlags, FU_DEVICE_FLAG_NONE to FU_DEVICE_FLAG_LAST. */
  datatype DeviceFlag = NoFlags | Internal | AllowOnline | AllowOffline | RequireAc | Locked | FlagLast

  /** FwupdDeviceFlags: NONE = 0, then `1 << 0` to `1 << 4`, then the sentinel without initializer. */
  const DeviceFlagDecl: seq<Enumerator<DeviceFlag>> := [
    Enumerator(NoFlags, Some(0)),
    Enumerator(Internal, Some(Pow2(0))),
    Enumerator(AllowOnline, Some(Pow2(1))),
    Enumerator(AllowOffline, Some(Pow2(2))),
    Enumerator(RequireAc, Some(Pow2(3))),
    Enumerator(Locked, Some(Pow2(4))),
    Enumerator(FlagLast, None)
  ]

  /** The enumerators of FwupdInstallFlags, FWUPD_INSTALL_FLAG_NONE to FWUPD_INSTALL_FLAG_LAST. */
  datatype InstallFlag = NoInstallFlags | Offline | AllowReinstall | AllowOlder | InstallLast

  /** FwupdInstallFlags: the literals 0, 1, 2, 4, then the sentinel without initializer. */
  const InstallFlagDecl: seq<Enumerator<InstallFlag>> := [
    Enumerator(NoInstallFlags, Some(0)),
    Enumerator(Offline, Some(1)),
    Enumerator(AllowReinstall, Some(2)),
    Enumerator(AllowOlder, Some(4)),
    Enumerator(InstallLast, None)
  ]

  /** The enumerators of FwupdUpdateState, FWUPD_UPDATE_STATE_UNKNOWN to FWUPD_UPDATE_STATE_LAST. */
  datatype UpdateState = Unknown | Pending | Success | Failed | Last

  /** FwupdUpdateState: no enumerator has an initializer. */
  const UpdateStateDecl: seq<Enumerator<UpdateState>> := [
    Enumerator(UpdateState.Unknown, None),
    Enumerator(UpdateState.Pending, None),
    Enumerator(UpdateState.Success, None),
    Enumerator(UpdateState.Failed, None),
    Enumerator(UpdateState.Last, None)
  ]

  // ---------------------------------------------------------------------------
  // Bits of a flag word

  /** `v` fits the 64-bit flag word (guint64) that `fu_device_set_flags` takes. */
  predicate InU64(v: int) {
    0 <= v < 0x1_0000_0000_0000_0000
  }

  /** Exactly one bit of `v` is set. */
  predicate IsSingleBit(v: int)
    decreases if v < 0 then 0 else v
  {
    v == 1 || (v > 1 && v % 2 == 0 && IsSingleBit(v / 2))
  }

  /** Bit `k` of `v`, the C expression `(v >> k) & 1` read as a truth value. */
  predicate Bit(v: nat, k: nat)
    decreases k
  {
    if k == 0 then v % 2 == 1 else Bit(v / 2, k - 1)
  }

  /** No bit is set in both `a` and `b`, read least significant bit first: the C test `(a & b) == 0`. */
  predicate NoCommonBit(a: nat, b: nat)
    decreases a
  {
    a == 0 || b == 0 || (!(a % 2 == 1 && b % 2 == 1) && NoCommonBit(a / 2, b / 2))
  }

  /** The C expression `a | b`, computed least significant bit first. */
  function BitOr(a: nat, b: nat): (r: nat)
    decreases a + b
  {
    if a == 0 then b
    else if b == 0 then a
    else 2 * BitOr(a / 2, b / 2) + (if a % 2 == 1 || b % 2 == 1 then 1 else 0)
  }

  /**
   * The shape of a flag enumeration: every value fits the 64-bit flag word,
   * the first enumerator (NONE) is 0, the enumerators between it and the last
   * are single bits no two of which share a bit, and the last enumerator (the
   * private sentinel) is no single bit.  The sentinel may still be a union of
   * flags (see `SentinelsAreFlagUnions`).
   */
  predicate IsFlagEnum(vs: seq<int>) {
    && |vs| >= 2
    && vs[0] == 0
    && (forall i :: 0 <= i < |vs| ==> InU64(vs[i]))
    && (forall i :: 0 < i < |vs| - 1 ==> IsSingleBit(vs[i]))
    && (forall i, j :: 0 < i < j < |vs| - 1 ==> vs[i] >= 0 && vs[j] >= 0 && NoCommonBit(vs[i], vs[j]))
    && !IsSingleBit(vs[|vs| - 1])
  }

  // ---------------------------------------------------------------------------
  // Lemmas

  /** Every `1 << k` has exactly one bit set. */
  lemma {:induction false} Pow2IsSingleBit(k: nat)
    ensures IsSingleBit(Pow2(k))
  {
    if k > 0 {
      Pow2IsSingleBit(k - 1);
      assert Pow2(k) / 2 == Pow2(k - 1);
    }
  }

  /** A value with exactly one bit set is `1 << k` for some k. */
  lemma {:induction false} SingleBitIsPow2(v: int) returns (k: nat)
    requires IsSingleBit(v)
    ensures Pow2(k) == v
    decreases if v < 0 then 0 else v
  {
    if v == 1 {
      k := 0;
    } else {
      var h := SingleBitIsPow2(v / 2);
      k := h + 1;
    }
  }

  /** FwupdStatus runs from UNKNOWN = 0 to SCHEDULING = 7, and the sentinel LAST is 8. */
  lemma StatusValues()
    ensures |StatusDecl| == 9
    ensures forall i :: 0 <= i < |StatusDecl| ==> Values(StatusDecl)[i] == i
    ensures StatusDecl[0].name == Status.Unknown && StatusDecl[7].name == Status.Scheduling
    ensures StatusDecl[8].name == Status.Last
  {
    forall i | 0 <= i < |StatusDecl| ensures Values(StatusDecl)[i] == i {
      ImplicitValuesArePositions(StatusDecl, i);
    }
  }

  /** FwupdUpdateState is UNKNOWN = 0, PENDING = 1, SUCCESS = 2, FAILED = 3, and the sentinel LAST is 4. */
  lemma UpdateStateValues()
    ensures |UpdateStateDecl| == 5
    ensures forall i :: 0 <= i < |UpdateStateDecl| ==> Values(UpdateStateDecl)[i] == i
    ensures UpdateStateDecl[3].name == UpdateState.Failed && UpdateStateDecl[4].name == UpdateState.Last
  {
    forall i | 0 <= i < |UpdateStateDecl| ensures Values(UpdateStateDecl)[i] == i {
      ImplicitValuesArePositions(UpdateStateDecl, i);
    }
  }

  /** NONE = 0, the five device flags are 1, 2, 4, 8, 16, and the implicit LAST is 17. */
  lemma DeviceFlagValues()
    ensures Values(DeviceFlagDecl) == [0, 1, 2, 4, 8, 16, 17]
    ensures DeviceFlagDecl[5].name == Locked && DeviceFlagDecl[6].name == FlagLast
  {
    assert Pow2(0) == 1 && Pow2(1) == 2 && Pow2(2) == 4 && Pow2(3) == 8 && Pow2(4) == 16;
    ValuesRule(DeviceFlagDecl);
    var vs := Values(DeviceFlagDecl);
    assert vs == [vs[0], vs[1], vs[2], vs[3], vs[4], vs[5], vs[6]];
  }

  /** NONE = 0, PAYLOAD = 1, METADATA = 2, and the implicit LAST is 3. */
  lemma TrustFlagValues()
    ensures Values(TrustFlagDecl) == [0, 1, 2, 3]
    ensures TrustFlagDecl[3].name == TrustLast
  {
    assert Pow2(0) == 1 && Pow2(1) == 2;
    ValuesRule(TrustFlagDecl);
    var vs := Values(TrustFlagDecl);
    assert vs == [vs[0], vs[1], vs[2], vs[3]];
  }

  /** NONE = 0, OFFLINE = 1, ALLOW_REINSTALL = 2, ALLOW_OLDER = 4, and the implicit LAST is 5. */
  lemma InstallFlagValues()
    ensures Values(InstallFlagDecl) == [0, 1, 2, 4, 5]
    ensures InstallFlagDecl[4].name == InstallLast
  {
    ValuesRule(InstallFlagDecl);
    var vs := Values(InstallFlagDecl);
    assert vs == [vs[0], vs[1], vs[2], vs[3], vs[4]];
  }

  /** The device flag values, as a literal list, have the shape of a flag enumeration. */
  lemma DeviceFlagShape()
    ensures IsFlagEnum([0, 1, 2, 4, 8, 16, 17])
  {
  }

  /** FwupdDeviceFlags is a flag enumeration: disjoint single bits between NONE and a non-flag LAST. */
  lemma DeviceFlagsAreFlagEnum()
    ensures IsFlagEnum(Values(DeviceFlagDecl))
  {
    DeviceFlagValues();
    DeviceFlagShape();
  }

  /** FwupdTrustFlags is a flag enumeration. */
  lemma TrustFlagsAreFlagEnum()
    ensures IsFlagEnum(Values(TrustFlagDecl))
  {
    TrustFlagValues();
  }

  /** FwupdInstallFlags is a flag enumeration. */
  lemma InstallFlagsAreFlagEnum()
    ensures IsFlagEnum(Values(InstallFlagDecl))
  {
    InstallFlagValues();
  }

  // ---------------------------------------------------------------------------
  // Bitwise reading of the flag predicates

  /** No bit of 0 is set. */
  lemma {:induction false} ZeroHasNoBit(k: nat)
    ensures !Bit(0, k)
  {
    if k > 0 {
      ZeroHasNoBit(k - 1);
    }
  }

  /** The lowest position set in both `a` and `b`, when there is one. */
  function SharedBit(a: nat, b: nat): (k: nat)
    requires !NoCommonBit(a, b)
    ensures Bit(a, k) && Bit(b, k)
    decreases a
  {
    if a % 2 == 1 && b % 2 == 1 then 0 else SharedBit(a / 2, b / 2) + 1
  }

  /** `NoCommonBit(a, b)` holds exactly when no bit position is set in both `a` and `b`. */
  lemma {:induction false} NoCommonBitMeansNoSharedBit(a: nat, b: nat)
    ensures NoCommonBit(a, b) ==> forall k: nat :: !(Bit(a, k) && Bit(b, k))
    ensures (forall k: nat :: !(Bit(a, k) && Bit(b, k))) ==> NoCommonBit(a, b)
    decreases a
  {
    if a == 0 || b == 0 {
      forall k: nat ensures !Bit(0, k) {
        ZeroHasNoBit(k);
      }
    } else {
      NoCommonBitMeansNoSharedBit(a / 2, b / 2);
      if NoCommonBit(a, b) {
        forall k: nat ensures !(Bit(a, k) && Bit(b, k)) {
          if k > 0 {
            assert !(Bit(a / 2, k - 1) && Bit(b / 2, k - 1));
          }
        }
      } else {
        var k := SharedBit(a, b);
        assert Bit(a, k) && Bit(b, k);
      }
    }
  }

  /** A bit of `BitOr(a, b)` is set exactly when it is set in `a` or in `b`. */
  lemma {:induction false} BitOrBits(a: nat, b: nat, k: nat)
    ensures Bit(BitOr(a, b), k) <==> Bit(a, k) || Bit(b, k)
    decreases a + b
  {
    if a == 0 || b == 0 {
      ZeroHasNoBit(k);
    } else if k > 0 {
      BitOrBits(a / 2, b / 2, k - 1);
      assert BitOr(a, b) / 2 == BitOr(a / 2, b / 2);
    }
  }

  /**
   * Each private sentinel is the union of two real flags, so passing it where
   * a flag is expected sets those two flags: FU_DEVICE_FLAG_LAST is
   * INTERNAL | LOCKED, FWUPD_TRUST_FLAG_LAST is PAYLOAD | METADATA and
   * FWUPD_INSTALL_FLAG_LAST is OFFLINE | ALLOW_OLDER.
   */
  lemma SentinelsAreFlagUnions()
    ensures DeviceFlagDecl[1].name == Internal && DeviceFlagDecl[5].name == Locked
    ensures var vs := Values(DeviceFlagDecl); vs[1] >= 0 && vs[5] >= 0 && vs[6] == BitOr(vs[1], vs[5])
    ensures TrustFlagDecl[1].name == Payload && TrustFlagDecl[2].name == Metadata
    ensures var vs := Values(TrustFlagDecl); vs[1] >= 0 && vs[2] >= 0 && vs[3] == BitOr(vs[1], vs[2])
    ensures InstallFlagDecl[1].name == Offline && InstallFlagDecl[3].name == AllowOlder
    ensures var vs := Values(InstallFlagDecl); vs[1] >= 0 && vs[3] >= 0 && vs[4] == BitOr(vs[1], vs[3])
  {
    DeviceFlagValues();
    TrustFlagValues();
    InstallFlagValues();
  }
}
