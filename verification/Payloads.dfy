/** The signed payload of a licence, and the device ID it names. */
module Payloads {
  import opened Basics
  import opened UnlockNumeral

  datatype LicenseKind = Trial | Perpetual

  datatype Payload = Payload(
    v: nat,
    lid: string,
    did: string,
    kind: LicenseKind,
    iat: int,
    exp: Option<int>,
    feat: seq<string>,
    note: Option<string>
  )

  const FORMAT_VERSION: nat := 1

  /** The length of `s` in UTF-8 bytes. */
  function Utf8Length(s: string): nat {
    if s == "" then 0
    else
      var n := s[0] as int;
      (if n < 0x80 then 1 else if n < 0x800 then 2 else if n < 0x10000 then 3 else 4) + Utf8Length(s[1..])
  }

  /** `WL-XXXX-XXXX` over the alphabet of the unlock codes. */
  predicate IsValidDeviceId(id: string) {
    && |id| == 12
    && id[..3] == "WL-"
    && id[7] == '-'
    && (forall i | 3 <= i < 12 && i != 7 :: id[i] in ALPHABET)
  }

  /** A device ID is its prefix and two groups of four symbols. */
  lemma DeviceIdIs(a: string, b: string, id: string)
    ensures |a| == |b| == 4 && id == "WL-" + a + "-" + b ==>
              (IsValidDeviceId(id) <==> forall c | c in a + b :: c in "23456789ABCDEFGHJKMNPQRSTVWXYZ")
    ensures IsValidDeviceId(id) ==> id == "WL-" + id[3..7] + "-" + id[8..12]
  {
    if |a| == |b| == 4 && id == "WL-" + a + "-" + b {
      assert id[..3] == "WL-" && id[7] == '-';
      assert forall i | 3 <= i < 7 :: id[i] == a[i - 3];
      assert forall i | 8 <= i < 12 :: id[i] == b[i - 8];
      assert forall i | 0 <= i < 4 :: a[i] == id[i + 3] && b[i] == id[i + 8];
    }
  }

  /** An end exactly for a trial, after its issue; a device ID in form; and every text and list within its bounds. */
  predicate IsConsistent(p: Payload) {
    && (match p.kind
        case Trial => p.exp.Some? && p.exp.value > p.iat
        case Perpetual => p.exp.None?)
    && 0 < Utf8Length(p.lid) <= 64
    && IsValidDeviceId(p.did)
    && |p.feat| <= 32
    && (forall f | f in p.feat :: 0 < Utf8Length(f) <= 40)
    && (p.note.Some? ==> |p.note.value| <= 120)
  }
}
