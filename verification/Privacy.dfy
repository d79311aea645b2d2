/**
 * What the authenticator and the identity mapper share: the digest capability they
 * both hash with, the salt they append, and the precedence by which that salt is
 * chosen (configured salt, then the process environment, then a public fallback).
 */
module Privacy {
  import opened Wrappers

  /** Configuration key of the per-instance salt, in both components' settings. */
  const ConfSaltKey := "idp.hash.salt"

  /** Environment variable holding the process-wide salt. */
  const EnvSaltVar := "IDP_LINKER_HASH_SALT"

  /** The publicly known salt used when neither source provides one. */
  const FallbackSalt := "DEFAULT_UNSAFE_SALT_CHANGE_ME"

  /**
   * The digest capability: SHA-256 over the UTF-8 bytes of its input, rendered as
   * URL-safe Base64 without padding. None stands for the digest algorithm being
   * unavailable in the running JVM.
   */
  datatype Hasher = Hasher(digest: string -> Option<string>)

  /** What both components hash: the value with the salt appended, no delimiter. */
  function SaltedInput(value: string, salt: string): (input: string)
    ensures |input| == |value| + |salt|
    ensures input[..|value|] == value && input[|value|..] == salt
  {
    value + salt
  }

  /** Under one salt, distinct values give distinct hashed inputs: appending the salt
      loses nothing of the value. */
  lemma SaltedInputInjective(v1: string, v2: string, salt: string)
    ensures SaltedInput(v1, salt) == SaltedInput(v2, salt) ==> v1 == v2
  {
    if SaltedInput(v1, salt) == SaltedInput(v2, salt) {
      assert |v1| == |v2|;
    }
  }

  /**
   * The salt precedence: a non-empty configured salt, else a non-empty
   * environment salt, else the fallback. Null and empty are treated alike.
   */
  function ResolveSalt(configured: Option<string>, fromEnv: Option<string>): (salt: string)
    ensures salt != ""
    ensures IsSet(configured) ==> salt == configured.value
    ensures !IsSet(configured) && IsSet(fromEnv) ==> salt == fromEnv.value
    ensures !IsSet(configured) && !IsSet(fromEnv) ==> salt == FallbackSalt
  {
    if IsSet(configured) then configured.value
    else if IsSet(fromEnv) then fromEnv.value
    else FallbackSalt
  }
}
