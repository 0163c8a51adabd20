/**
 The vocabulary shared by both capture loops: bytes, optional values, the
 HRESULT codes the desktop duplication API returns, and the outcomes of the
 GPU-to-CPU transfer, which the model takes as inputs.
 */
module CaptureTypes {

  /** One byte of a frame buffer (`unsigned char` / `uint8_t`). */
  newtype Byte = x: int | 0 <= x < 256

  datatype Option<+T> = None | Some(value: T)

  /** The identity of a consumer callback; the model never calls into it. */
  type CallbackId = nat

  /** Largest value of a 32-bit `int`. */
  const IntMax: int := 0x7FFF_FFFF

  /** A Windows HRESULT: a signed 32-bit status code. */
  newtype HResult = x: int | -0x8000_0000 <= x < 0x8000_0000

  const Ok: HResult := 0
  const DxgiErrorInvalidCall: HResult := (0x887A_0001 - 0x1_0000_0000) as HResult
  const DxgiErrorAccessLost: HResult := (0x887A_0026 - 0x1_0000_0000) as HResult
  const DxgiErrorWaitTimeout: HResult := (0x887A_0027 - 0x1_0000_0000) as HResult

  /**
   What `IDXGIOutputDuplication::AcquireNextFrame` returns. The desktop offers
   `offered` (a new frame, a timeout, a lost session, ...), except that while
   the previously acquired frame has not been released with `ReleaseFrame`
   the call fails with DXGI_ERROR_INVALID_CALL whatever the desktop does.
   */
  function AcquireNextFrame(held: bool, offered: HResult): HResult
  {
    if held then DxgiErrorInvalidCall else offered
  }

  /**
   The outcome of moving an acquired frame to system memory: creating the
   staging texture can fail, mapping it can fail, or it yields the mapped
   bytes `src`, whose rows start `rowPitch` bytes apart.
   */
  datatype MapOutcome =
    | StagingFailed
    | MapFailed
    | Mapped(src: seq<Byte>, rowPitch: nat)
}
