/**
 * The cryptography the controller calls but whose code is not part of this
 * model: HMAC-SHA512 and the authenticator library's PIN check and
 * provisioning output. Both are passed in as functions, so every property
 * proved here holds whatever they compute.
 */
module Crypto {
  import opened Models

  /** HMAC-SHA512 keyed by the first argument over the UTF-8 bytes of the second. */
  type Hmac = (Key, string) -> Digest

  /**
   * The authenticator library's ValidateTwoFactorPIN(secret, code), evaluated
   * at the request's clock reading (first argument).
   */
  type PinValidator = (Time, string, string) -> bool

  datatype Oracles = Oracles(hmac: Hmac, validPin: PinValidator)

  /** Issuer label the controller passes to the provisioning call. */
  const Issuer: string := "iSEM.ai"

  /** Pixels per QR module the controller passes to the provisioning call. */
  const QrPixelsPerModule: nat := 3

  /**
   * The arguments of GenerateSetupCode(issuer, account, secret,
   * secretIsBase32, qrPixelsPerModule); the QR image URL and manual entry
   * key rendered from them are a pure function of these and are not modelled.
   */
  datatype SetupCode = SetupCode(
    issuer: string,
    account: string,
    secretKey: string,
    secretIsBase32: bool,
    qrPixelsPerModule: nat)

  /** The provisioning request the controller makes for a user's email and secret. */
  function GenerateSetupCode(email: string, secretKey: string): SetupCode {
    SetupCode(Issuer, email, secretKey, false, QrPixelsPerModule)
  }
}
