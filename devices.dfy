/** Device identification hashes and the XOR-encrypted payload written into external
    flash (gnwmanager/cli/devices.py). SHA-1 is a parameter: its hex digest is taken as
    given. */
module Devices {
  import opened Common

  /** The per-console constants of a `DeviceModel` subclass. */
  datatype DeviceModel = DeviceModel(
    itcmOffset: nat,
    itcmSize: nat,
    itcmHash: string,
    internalFlashHash: string,
    externalFlashHash: string,
    externalFlashHashStart: nat,
    externalFlashHashEnd: nat,
    externalFlashSize: nat,
    externalOffset: nat)

  const MARIO: DeviceModel := DeviceModel(
    0, 1300,
    "ca71a54c0a22cca5c6ee129faee9f99f3a346ca0",
    "efa04c387ad7b40549e15799b471a6e1cd234c76",
    "eea70bb171afece163fb4b293c5364ddb90637ae",
    0, 0xF_E000, 0x10_0000, 0)

  const ZELDA: DeviceModel := DeviceModel(
    0x20, 1300,
    "2f70156235ffd871599facf64457040d549353b4",
    "ac14bcea6e4ff68c88fd2302c021025a2fb47940",
    "1c1c0ed66d07324e560dcd9e86a322ec5e4c1e96",
    0x2_0000, 0x32_54A0, 0x40_0000, 0x30_C3A8)

  function Pow2(w: nat): (r: nat)
    ensures r > 0
  {
    if w == 0 then 1 else 2 * Pow2(w - 1)
  }

  /** Bitwise exclusive or of the low `w` bits, one bit at a time. */
  function BitXor(x: nat, y: nat, w: nat): (r: nat)
    ensures r < Pow2(w)
  {
    if w == 0 then 0
    else (if x % 2 == y % 2 then 0 else 1) + 2 * BitXor(x / 2, y / 2, w - 1)
  }

  /** Python's `x ^ y` on two bytes. */
  function XorByte(x: byte, y: byte): byte
  {
    BitXor(x, y, 8)
  }

  /** XOR with the same value twice gives the value back. */
  lemma {:induction false} BitXorTwice(x: nat, y: nat, w: nat)
    requires x < Pow2(w)
    ensures BitXor(BitXor(x, y, w), y, w) == x
  {
    if w > 0 {
      var z := BitXor(x, y, w);
      var rest := BitXor(x / 2, y / 2, w - 1);
      assert z % 2 == (if x % 2 == y % 2 then 0 else 1) && z / 2 == rest;
      BitXorTwice(x / 2, y / 2, w - 1);
    }
  }

  lemma {:induction false} BitXorCommutes(x: nat, y: nat, w: nat)
    ensures BitXor(x, y, w) == BitXor(y, x, w)
  {
    if w > 0 {
      BitXorCommutes(x / 2, y / 2, w - 1);
    }
  }

  /** XOR with the same byte twice gives the byte back, in either order of operands. */
  lemma XorByteFacts(x: byte, y: byte)
    ensures XorByte(XorByte(x, y), y) == x
    ensures XorByte(x, y) == XorByte(y, x)
  {
    assert Pow2(8) == 256;
    BitXorTwice(x, y, 8);
    BitXorCommutes(x, y, 8);
  }

  /** `_xor`: bytewise XOR over `zip(a, b)`, as long as the shorter input. */
  function Xor(a: Bytes, b: Bytes): (r: Bytes)
    ensures |r| == Min(|a|, |b|)
    ensures forall k :: 0 <= k < |r| ==> r[k] == XorByte(a[k], b[k])
  {
    seq(Min(|a|, |b|), k requires 0 <= k < Min(|a|, |b|) => XorByte(a[k], b[k]))
  }

  /** XOR-ing twice with the same key undoes the first XOR, truncated to the key. */
  lemma XorTwice(a: Bytes, key: Bytes)
    requires |a| <= |key|
    ensures Xor(Xor(a, key), key) == a
  {
    forall k | 0 <= k < |a| ensures Xor(Xor(a, key), key)[k] == a[k] {
      XorByteFacts(a[k], key[k]);
    }
  }

  /** `validate_itcm`: the SHA-1 of the ITCM image must be the model's. */
  function ValidateItcm(model: DeviceModel, data: Bytes, sha1: Bytes -> string): (r: Outcome)
    ensures r.Pass? <==> sha1(data) == model.itcmHash
    ensures r.Fail? ==> r.error == HashMismatchError(model.itcmHash, sha1(data))
  {
    var actual := sha1(data);
    if actual != model.itcmHash then Fail(HashMismatchError(model.itcmHash, actual)) else Pass
  }

  /** `validate_external_flash`: only `data[start:end]` is hashed. */
  function ValidateExternalFlash(model: DeviceModel, data: Bytes, sha1: Bytes -> string): (r: Outcome)
    ensures r.Pass? <==> sha1(Slice(data, model.externalFlashHashStart, model.externalFlashHashEnd))
                         == model.externalFlashHash
    ensures r.Fail? ==> r.error.HashMismatchError? && r.error.expected == model.externalFlashHash
  {
    var actual := sha1(Slice(data, model.externalFlashHashStart, model.externalFlashHashEnd));
    if actual != model.externalFlashHash then Fail(HashMismatchError(model.externalFlashHash, actual))
    else Pass
  }

  /** `validate_internal_flash`: the SHA-1 of the whole dump must be the model's. */
  function ValidateInternalFlash(model: DeviceModel, data: Bytes, sha1: Bytes -> string): (r: Outcome)
    ensures r.Pass? <==> sha1(data) == model.internalFlashHash
    ensures r.Fail? ==> r.error == HashMismatchError(model.internalFlashHash, sha1(data))
  {
    var actual := sha1(data);
    if actual != model.internalFlashHash then Fail(HashMismatchError(model.internalFlashHash, actual))
    else Pass
  }

  /** `create_encrypted_payload`: both images are validated first (ITCM first); then the
      window of the external image at `external_offset` is replaced by
      `payload ^ itcm[:len(payload)] ^ window`. The slice assignment changes the length
      of the image if the XOR comes out shorter than the window. */
  function CreateEncryptedPayload(model: DeviceModel, itcm: Bytes, extflash: Bytes, payload: Bytes,
                                  sha1: Bytes -> string): (r: Result<Bytes>)
    ensures r.Ok? <==> ValidateItcm(model, itcm, sha1).Pass?
                       && ValidateExternalFlash(model, extflash, sha1).Pass?
    ensures r.Err? && ValidateItcm(model, itcm, sha1).Fail? ==>
              r.error == ValidateItcm(model, itcm, sha1).error
  {
    var itcmCheck := ValidateItcm(model, itcm, sha1);
    if itcmCheck.Fail? then Err(itcmCheck.error)
    else
      var extCheck := ValidateExternalFlash(model, extflash, sha1);
      if extCheck.Fail? then Err(extCheck.error)
      else
        var eo := model.externalOffset;
        var segment := Slice(extflash, eo, eo + |payload|);
        var xorImage := Xor(Slice(itcm, 0, |payload|), segment);
        Ok(SliceAssign(extflash, eo, eo + |payload|, Xor(payload, xorImage)))
  }

  /** When the ITCM image and the external image are long enough, the output keeps the
      image's length and every byte outside the window, and each window byte is the
      payload byte XOR the ITCM byte XOR the original byte. */
  lemma EncryptedPayloadLayout(model: DeviceModel, itcm: Bytes, extflash: Bytes, payload: Bytes,
                               sha1: Bytes -> string)
    requires CreateEncryptedPayload(model, itcm, extflash, payload, sha1).Ok?
    requires |payload| <= |itcm| && model.externalOffset + |payload| <= |extflash|
    ensures var out := CreateEncryptedPayload(model, itcm, extflash, payload, sha1).value;
      var eo := model.externalOffset;
      |out| == |extflash|
      && (forall k :: 0 <= k < |out| && !(eo <= k < eo + |payload|) ==> out[k] == extflash[k])
      && (forall k :: 0 <= k < |payload| ==>
            out[eo + k] == XorByte(payload[k], XorByte(itcm[k], extflash[eo + k])))
  {
    var eo := model.externalOffset;
    var key := Xor(Slice(itcm, 0, |payload|), Slice(extflash, eo, eo + |payload|));
    var enc := Xor(payload, key);
    var out := SliceAssign(extflash, eo, eo + |payload|, enc);
    assert CreateEncryptedPayload(model, itcm, extflash, payload, sha1).value == out;
    assert |key| == |payload| && |enc| == |payload|;
    SliceAssignInPlace(extflash, eo, enc);
    forall k | 0 <= k < |payload|
      ensures out[eo + k] == XorByte(payload[k], XorByte(itcm[k], extflash[eo + k]))
    {
      assert out[eo + k] == enc[k];
      assert key[k] == XorByte(Slice(itcm, 0, |payload|)[k], Slice(extflash, eo, eo + |payload|)[k]);
    }
  }

  /** The device reverses the encryption: XOR-ing the window of the output with the ITCM
      image and the original window gives back the payload. */
  lemma EncryptedPayloadDecrypts(model: DeviceModel, itcm: Bytes, extflash: Bytes, payload: Bytes,
                                 sha1: Bytes -> string)
    requires CreateEncryptedPayload(model, itcm, extflash, payload, sha1).Ok?
    requires |payload| <= |itcm| && model.externalOffset + |payload| <= |extflash|
    ensures var out := CreateEncryptedPayload(model, itcm, extflash, payload, sha1).value;
      var eo := model.externalOffset;
      Xor(out[eo..eo + |payload|], Xor(itcm[..|payload|], extflash[eo..eo + |payload|])) == payload
  {
    var out := CreateEncryptedPayload(model, itcm, extflash, payload, sha1).value;
    var eo := model.externalOffset;
    var key := Xor(itcm[..|payload|], extflash[eo..eo + |payload|]);
    EncryptedPayloadLayout(model, itcm, extflash, payload, sha1);
    assert out[eo..eo + |payload|] == Xor(payload, key) by {
      forall k | 0 <= k < |payload| ensures out[eo..eo + |payload|][k] == Xor(payload, key)[k] {
        assert out[eo..eo + |payload|][k] == out[eo + k];
      }
    }
    XorTwice(payload, key);
  }
}
