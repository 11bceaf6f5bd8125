/** Offset validators shared by every command that addresses flash
    (gnwmanager/validation.py). */
module Validation {
  import opened Common

  /** Start of the memory-mapped external flash window. */
  const EXTFLASH_BASE: int := 0x9000_0000

  /** Smallest erase unit of the external flash, as the host checks it. */
  const EXTFLASH_ALIGN: int := 4096

  /** Size of one internal flash sector. */
  const INTFLASH_SECTOR: int := 8192

  /** `validate_extflash_offset`: an external-flash offset must be a plain offset (not a
      memory-mapped address) and a multiple of 4096; otherwise `ValueError`. */
  function ValidateExtflashOffset(val: int): (r: Outcome)
    ensures r.Pass? <==> val < EXTFLASH_BASE && val % EXTFLASH_ALIGN == 0
    ensures r.Fail? ==> r.error == ValueError
  {
    if val >= 0x9000_0000 then Fail(ValueError)
    else if val % 4096 != 0 then Fail(ValueError)
    else Pass
  }

  /** `validate_intflash_offset`: below 0x8000_0000 and a multiple of 8192. The first
      test (>= 0x8100_0000) only changes the message. */
  function ValidateIntflashOffset(val: int): (r: Outcome)
    ensures r.Pass? <==> val < 0x8000_0000 && val % INTFLASH_SECTOR == 0
    ensures r.Fail? ==> r.error == ValueError
  {
    if val >= 0x8100_0000 then Fail(ValueError)
    else if val >= 0x8000_0000 then Fail(ValueError)
    else if val % 8192 != 0 then Fail(ValueError)
    else Pass
  }

  /** Every offset the internal check accepts, the external check accepts too. */
  lemma IntflashOffsetIsExtflashOffset(val: int)
    requires ValidateIntflashOffset(val).Pass?
    ensures ValidateExtflashOffset(val).Pass?
  {
    var q := val / 8192;
    DivUnique(val, 4096, 2 * q, 0);
  }
}
