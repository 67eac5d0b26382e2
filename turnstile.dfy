/**
 * Cloudflare Turnstile checks. The server either has no secret key, in
 * which case every token passes, or asks Cloudflare's siteverify endpoint,
 * whose answer (false also when the request fails) is the `siteverify`
 * oracle.
 */
module Turnstile {

  datatype Captcha = Captcha(secretConfigured: bool, siteverify: string -> bool)

  /** `verifyTurnstile(token)`. */
  function VerifyTurnstile(c: Captcha, token: string): (ok: bool)
    ensures !c.secretConfigured ==> ok
    ensures c.secretConfigured ==> (ok <==> c.siteverify(token))
  {
    !c.secretConfigured || c.siteverify(token)
  }
}
