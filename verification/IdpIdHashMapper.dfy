/**
 * The identity-provider mapper that pseudonymises a brokered identity before Keycloak
 * stores it: the subject id and the username are replaced by salted digests, with the
 * salt chosen by the same precedence as the authenticator's. Hashing is lenient here:
 * when the digest cannot be computed the value is kept as it is.
 */
module IdpIdHashMapper {
  import opened Wrappers
  import Privacy
  import AttributeMatchAuthenticator

  /** The part of the brokered identity the mapper sees; the source updates id and
      username in place through their setters. */
  class BrokeredIdentityContext {
    var id: Option<string>
    var username: Option<string>
    var email: Option<string>
    var attributes: map<string, seq<string>>

    constructor(id: Option<string>, username: Option<string>, email: Option<string>,
                attributes: map<string, seq<string>>)
      ensures this.id == id && this.username == username
      ensures this.email == email && this.attributes == attributes
    {
      this.id := id;
      this.username := username;
      this.email := email;
      this.attributes := attributes;
    }

    method SetId(v: Option<string>)
      modifies this`id
      ensures id == v
    {
      id := v;
    }

    method SetUsername(v: Option<string>)
      modifies this`username
      ensures username == v
    {
      username := v;
    }
  }

  /** What Java's string concatenation makes of a possibly null value. */
  function ConcatText(value: Option<string>): (text: string)
    ensures value.Some? ==> text == value.value
    ensures value.None? ==> text == "null"
  {
    if value.Some? then value.value else "null"
  }

  /**
   * The mapper's hash: the digest of value + salt, where a null value is concatenated
   * as the text "null"; when the digest fails the value itself is returned, so a
   * non-null value never becomes null and a null one stays null.
   */
  function HashValue(h: Privacy.Hasher, value: Option<string>, salt: string): (r: Option<string>)
    ensures h.digest(Privacy.SaltedInput(ConcatText(value), salt)).Some? ==>
              r == h.digest(Privacy.SaltedInput(ConcatText(value), salt))
    ensures h.digest(Privacy.SaltedInput(ConcatText(value), salt)).None? ==> r == value
    ensures value.Some? ==> r.Some?
  {
    var hashed := h.digest(Privacy.SaltedInput(ConcatText(value), salt));
    if hashed.Some? then hashed else value
  }

  /**
   * The mapper's salt chain, written as the source writes it: the configured salt,
   * replaced by the environment's when null or empty, replaced by the fallback when
   * that is null or empty too.
   */
  method ChooseSalt(config: map<string, string>, env: map<string, string>) returns (salt: string)
    ensures salt == Privacy.ResolveSalt(Get(config, Privacy.ConfSaltKey), Get(env, Privacy.EnvSaltVar))
  {
    var candidate := Get(config, Privacy.ConfSaltKey);
    if candidate.None? || candidate.value == "" {
      candidate := Get(env, Privacy.EnvSaltVar);
      if candidate.None? || candidate.value == "" {
        candidate := Some(Privacy.FallbackSalt);
      }
    }
    salt := candidate.value;
  }

  /**
   * preprocessFederatedIdentity: an identity without a subject id is left alone;
   * otherwise the id and the username are each replaced by their hash under the one
   * salt of this call. Nothing else of the identity is written.
   */
  method PreprocessFederatedIdentity(context: BrokeredIdentityContext, config: map<string, string>,
                                     env: map<string, string>, h: Privacy.Hasher)
    modifies context`id, context`username
    ensures old(context.id).None? ==> context.id == old(context.id) && context.username == old(context.username)
    ensures old(context.id).Some? ==>
              var salt := Privacy.ResolveSalt(Get(config, Privacy.ConfSaltKey), Get(env, Privacy.EnvSaltVar));
              && context.id == HashValue(h, old(context.id), salt)
              && context.username == HashValue(h, old(context.username), salt)
    ensures context.email == old(context.email) && context.attributes == old(context.attributes)
  {
    var originalId := context.id;
    if originalId.None? {
      return;
    }
    var salt := ChooseSalt(config, env);
    var hashedId := HashValue(h, originalId, salt);
    context.SetId(hashedId);
    context.SetUsername(HashValue(h, context.username, salt));
  }

  /** A pseudonymised subject is never null: the id either becomes its digest or, when
      hashing fails, keeps its original value. */
  lemma HashedIdIsDigestOrOriginal(h: Privacy.Hasher, id: string, salt: string)
    ensures HashValue(h, Some(id), salt) == Some(id)
            || HashValue(h, Some(id), salt) == h.digest(id + salt)
    ensures HashValue(h, Some(id), salt).Some?
  {
    assert Privacy.SaltedInput(ConcatText(Some(id)), salt) == id + salt;
  }

  /** A null username is hashed as the text "null" followed by the salt, so an identity
      without a username gets the same pseudonym as one whose username is "null". */
  lemma NullUsernameHashesNullText(h: Privacy.Hasher, salt: string)
    requires h.digest("null" + salt).Some?
    ensures HashValue(h, None, salt) == h.digest("null" + salt)
    ensures HashValue(h, None, salt) == HashValue(h, Some("null"), salt)
  {
    assert Privacy.SaltedInput(ConcatText(None), salt) == "null" + salt;
  }

  /**
   * The mapper and the authenticator hash alike: when both are configured with the
   * same salt (or both fall back to the same environment salt or constant), the
   * mapper's pseudonym of a value equals the comparison value a hashed rule of the
   * authenticator computes from it.
   */
  lemma SameSaltSameHash(h: Privacy.Hasher, v: string, mapperConfig: map<string, string>,
                         authConfig: map<string, string>, env: map<string, string>)
    requires Get(mapperConfig, Privacy.ConfSaltKey) == Get(authConfig, Privacy.ConfSaltKey)
    requires h.digest(v + AttributeMatchAuthenticator.GetSalt(Some(authConfig), env)).Some?
    ensures var salt := Privacy.ResolveSalt(Get(mapperConfig, Privacy.ConfSaltKey), Get(env, Privacy.EnvSaltVar));
            && salt == AttributeMatchAuthenticator.GetSalt(Some(authConfig), env)
            && HashValue(h, Some(v), salt)
               == AttributeMatchAuthenticator.HashValue(h, v, AttributeMatchAuthenticator.GetSalt(Some(authConfig), env))
  {
    var salt := AttributeMatchAuthenticator.GetSalt(Some(authConfig), env);
    assert Privacy.SaltedInput(ConcatText(Some(v)), salt) == v + salt;
  }
}
