# Keycloak IdP attribute linker, modelled in Dafny

This project models the two pieces of a Keycloak identity-broker plugin that decide
how a federated login is linked to a local account and how the federated identity is
pseudonymised.

- **The attribute-matching authenticator** (`authenticateImpl` and its helpers). It
  reads a rule string `idp:user[:hash], ...` from its configuration and resolves one
  salt per call. It then evaluates the entries in order. Each rule reads the first
  value of an IdP attribute and hashes it when the rule says so. The first rule looks
  users up in the directory; every later rule filters the previous candidates in
  memory. The result is reported on the flow context as one of three things: a single
  linked user (with the post-broker-login note), an inconclusive attempt, or a failure
  with an error code and, for the no-user, data-mismatch and multiple-users cases, an
  error page.
- **The identity mapper** (`preprocessFederatedIdentity`). It resolves the salt by
  the same precedence and rewrites the brokered identity's subject id and username in
  place with their salted digests. When the digest fails, the value is kept.

Layout:

- `Wrappers.dfy`: `Option` for Java's null, `Fallible` for a call that may throw,
  and `Map.get`.
- `JavaStrings.dfy`: `String.trim()`, `String.split` on a one-character-class regex
  (trailing empty fields dropped, a string without a delimiter kept whole), and
  `equalsIgnoreCase` against a lower-case ASCII literal.
- `Privacy.dfy`: the digest capability, the salted input `value + salt`, and the salt
  precedence shared by both components.
- `AuthenticationFlow.dfy`: users, outcomes, and the flow context as a class whose
  status, user and session notes are updated in place.
- `AttributeMatchAuthenticator.dfy`: entry parsing, and one loop step as a function
  (`StepEntry`). The loop itself is specified as a function (`Run`) and implemented
  as a method (`EvaluateRules`, with the loop body in `MatchRule`) proved equal to it.
  It also holds the decision, the whole evaluation (`Authenticate`), and the
  imperative `AuthenticateImpl`, which drives the context.
- `IdpIdHashMapper.dfy`: the brokered identity as a class, the lenient hash, and the
  imperative mapper.

How the source's behaviour is represented:

- The user directory, the digest, the environment and the configuration are
  parameters.
- SHA-256 followed by URL-safe Base64 is an uninterpreted function `string ->
  Option<string>`; `None` stands for the algorithm being unavailable.
- Every directory call and the digest return `Fallible` or `Option`, so each exception
  a directory call or the digest throws, which the authenticator's catch block turns
  into `INTERNAL_ERROR`, is a modelled path.
- Entries are classified into `Entry` values (`Blank`, `Malformed`, `Parsed(rule)`)
  before the loop specification reads them. Parsing reads nothing but the entry, so
  this is the same as the source's parsing inside the loop. `EvaluateRules` still
  parses each entry when it reaches it.

Behaviour of the code worth noting:

- A missing configuration or rule string ends in `attempted()` (an inconclusive
  attempt), not in a configuration error.
- For `email`/`username` user keys the code falls back to the generic attribute
  search when the dedicated lookup finds nobody, rather than using the dedicated
  lookup only.
- A malformed entry aborts the evaluation only when the loop reaches it. An earlier
  rule that stops the loop (no user found, missing attribute) decides the outcome
  first.

## Model

| member | source | states |
|---|---|---|
| Wrappers.Get | src/main/java/io/github/naiin9/keycloak/broker/IdpIdHashMapper.java:50 | Map.get is null exactly when the key is absent, and otherwise the mapped value |
| JavaStrings.LeadCount | src/main/java/io/github/naiin9/keycloak/broker/AttributeMatchAuthenticator.java:66 | the count of leading characters trim skips: all of them are at most U+0020 and the next one is not |
| JavaStrings.TrailCount | src/main/java/io/github/naiin9/keycloak/broker/AttributeMatchAuthenticator.java:66 | the count of trailing characters trim cuts: all of them are at most U+0020 and the one before them is not |
| JavaStrings.Trim | src/main/java/io/github/naiin9/keycloak/broker/AttributeMatchAuthenticator.java:66 | trim never lengthens a string, gives the empty string exactly when every character is at most U+0020, and otherwise starts and ends with a character above U+0020 |
| JavaStrings.TrimSlice | src/main/java/io/github/naiin9/keycloak/broker/AttributeMatchAuthenticator.java:66 | trim keeps one contiguous slice of the string, starting after its leading strippable characters |
| JavaStrings.TrimDropsOnlyBlank | src/main/java/io/github/naiin9/keycloak/broker/AttributeMatchAuthenticator.java:66 | everything trim drops on either side of that slice is a character at most U+0020 |
| JavaStrings.TrimOfTrimmed | src/main/java/io/github/naiin9/keycloak/broker/AttributeMatchAuthenticator.java:77-78 | trim leaves a non-empty string that starts and ends with a kept character unchanged |
| JavaStrings.TrimIdempotent | src/main/java/io/github/naiin9/keycloak/broker/AttributeMatchAuthenticator.java:77-78 | trimming a key twice gives what trimming once gives |
| JavaStrings.KeptBounds | src/main/java/io/github/naiin9/keycloak/broker/AttributeMatchAuthenticator.java:66 | a non-blank string has bounds i < j where the kept part starts and ends, and trim gives exactly the slice between them |
| JavaStrings.TrimOfSlice | src/main/java/io/github/naiin9/keycloak/broker/AttributeMatchAuthenticator.java:77-78 | trimming any slice that contains the kept part of a string gives what trimming the whole string gives |
| JavaStrings.TrimAround | src/main/java/io/github/naiin9/keycloak/broker/AttributeMatchAuthenticator.java:66 | trimming x + m + z cuts only the leading blanks of x and the trailing blanks of z and keeps all of m |
| JavaStrings.TrimBlankTail | src/main/java/io/github/naiin9/keycloak/broker/AttributeMatchAuthenticator.java:66 | trimming x + m + z with a blank z cuts the leading blanks of x and all of z, and keeps m when it ends with a kept character |
| JavaStrings.TrimAroundParts | src/main/java/io/github/naiin9/keycloak/broker/AttributeMatchAuthenticator.java:66-69 | trimming an entry keeps a tail of its first field and a head of its last field that trim like those fields and contain no delimiter the fields did not |
| JavaStrings.TrimKeepsDelimiterFree | src/main/java/io/github/naiin9/keycloak/broker/AttributeMatchAuthenticator.java:77-78 | trimming a colon-free field leaves it colon-free |
| JavaStrings.NoDelimsIffFree | src/main/java/io/github/naiin9/keycloak/broker/AttributeMatchAuthenticator.java:61 | a string counts no delimiter exactly when none of its characters is one |
| JavaStrings.Pieces | src/main/java/io/github/naiin9/keycloak/broker/AttributeMatchAuthenticator.java:61 | cutting at every delimiter gives one more piece than there are delimiters, none of them holding a delimiter |
| JavaStrings.PiecesJoin | src/main/java/io/github/naiin9/keycloak/broker/AttributeMatchAuthenticator.java:69 | joining the pieces with the delimiter gives back the original string |
| JavaStrings.DropTrailingEmpty | src/main/java/io/github/naiin9/keycloak/broker/AttributeMatchAuthenticator.java:61 | split keeps a prefix of the pieces, drops only empty ones, and never ends with an empty piece |
| JavaStrings.Split | src/main/java/io/github/naiin9/keycloak/broker/AttributeMatchAuthenticator.java:61 | split gives at most one more field than there are delimiters, none holding a delimiter; a string without a delimiter (even the empty one) is a single field; otherwise the fields are exactly the pieces between delimiters, in order, with only trailing empty pieces dropped and no empty field last |
| JavaStrings.PiecesCons | src/main/java/io/github/naiin9/keycloak/broker/AttributeMatchAuthenticator.java:69 | a delimiter-free head followed by a delimiter is the first piece, and the rest is cut on its own |
| JavaStrings.PiecesOfDelimiterFree | src/main/java/io/github/naiin9/keycloak/broker/AttributeMatchAuthenticator.java:69 | a delimiter-free string is a single piece |
| JavaStrings.SplitOfPieces | src/main/java/io/github/naiin9/keycloak/broker/AttributeMatchAuthenticator.java:69 | when the last of at least two pieces is non-empty, split returns all of the pieces |
| JavaStrings.SplitTwo | src/main/java/io/github/naiin9/keycloak/broker/AttributeMatchAuthenticator.java:69 | "a:b" with colon-free a and non-empty colon-free b splits into exactly [a, b] |
| JavaStrings.SplitThree | src/main/java/io/github/naiin9/keycloak/broker/AttributeMatchAuthenticator.java:69 | "a:b:c" with colon-free fields and non-empty c splits into exactly [a, b, c] |
| JavaStrings.JoinDropEmpty | src/main/java/io/github/naiin9/keycloak/broker/AttributeMatchAuthenticator.java:61 | dropping trailing empty pieces leaves a join that is a prefix of the full join, the rest being only delimiters |
| JavaStrings.SplitJoin | src/main/java/io/github/naiin9/keycloak/broker/AttributeMatchAuthenticator.java:61 | split loses only a trailing run of delimiters: joining the fields with the delimiter gives a prefix of the string, and every character after it is the delimiter |
| JavaStrings.UpperAscii | src/main/java/io/github/naiin9/keycloak/broker/AttributeMatchAuthenticator.java:108-110 | the upper-case ASCII spelling changes only the letters a to z, position by position |
| JavaStrings.EqualsIgnoreCase | src/main/java/io/github/naiin9/keycloak/broker/AttributeMatchAuthenticator.java:86 | against a literal without upper-case ASCII letters and for an ASCII string, the comparison holds exactly when both have the same upper-case spelling |
| JavaStrings.EqualsIgnoreCaseAccepts | src/main/java/io/github/naiin9/keycloak/broker/AttributeMatchAuthenticator.java:108-110 | the key comparison accepts the literal's own upper-case spelling, and accepts "EMA\u0130L" for "email" because Java folds the dotted capital I to i |
| Privacy.SaltedInput | src/main/java/io/github/naiin9/keycloak/broker/AttributeMatchAuthenticator.java:190 | the hashed text is the value followed by the salt, with no delimiter |
| Privacy.SaltedInputInjective | src/main/java/io/github/naiin9/keycloak/broker/AttributeMatchAuthenticator.java:190 | under one salt, different values give different hashed inputs, so the digest sees every difference between values |
| Privacy.ResolveSalt | src/main/java/io/github/naiin9/keycloak/broker/AttributeMatchAuthenticator.java:174-185 | the salt is never empty: a non-empty configured salt wins, else a non-empty environment salt, else the public fallback constant |
| AuthenticationFlow.AuthenticationFlowContext.Attempted | src/main/java/io/github/naiin9/keycloak/broker/AttributeMatchAuthenticator.java:93 | attempted() marks the flow as attempted and writes nothing else |
| AuthenticationFlow.AuthenticationFlowContext.Success | src/main/java/io/github/naiin9/keycloak/broker/AttributeMatchAuthenticator.java:162 | success() marks the flow as successful and writes nothing else |
| AuthenticationFlow.AuthenticationFlowContext.Failure | src/main/java/io/github/naiin9/keycloak/broker/AttributeMatchAuthenticator.java:165-166 | failure(error, page) records that error and page and writes nothing else |
| AuthenticationFlow.AuthenticationFlowContext.SetUser | src/main/java/io/github/naiin9/keycloak/broker/AttributeMatchAuthenticator.java:160 | setUser sets the flow's user and writes nothing else |
| AuthenticationFlow.AuthenticationFlowContext.SetAuthNote | src/main/java/io/github/naiin9/keycloak/broker/AttributeMatchAuthenticator.java:161 | setAuthNote adds or replaces one note and keeps the others |
| AuthenticationFlow.Report | src/main/java/io/github/naiin9/keycloak/broker/AttributeMatchAuthenticator.java:157-171 | the context ends showing the outcome: only a linked outcome sets the user and adds POST_BROKER_LOGIN_AUTHENTICATED=true; the other outcomes leave the user and notes as they were |
| AttributeMatchAuthenticator.ParseEntry | src/main/java/io/github/naiin9/keycloak/broker/AttributeMatchAuthenticator.java:66-86 | an entry is skipped exactly when it is blank, and a parsed rule's keys are non-empty, trimmed and colon-free |
| AttributeMatchAuthenticator.RuleEntries | src/main/java/io/github/naiin9/keycloak/broker/AttributeMatchAuthenticator.java:61 | each entry of the rule string holds no comma and no newline, and a rule string without either is a single entry |
| AttributeMatchAuthenticator.ParseRender | src/main/java/io/github/naiin9/keycloak/broker/AttributeMatchAuthenticator.java:69-86 | parsing "idp:user:true" or "idp:user:false" with well-formed keys gives back exactly that rule (a parse/render round trip) |
| AttributeMatchAuthenticator.ParseTwoFields | src/main/java/io/github/naiin9/keycloak/broker/AttributeMatchAuthenticator.java:69-86 | an entry a:b with colon-free, non-blank fields parses to the unhashed rule on trim(a) and trim(b) |
| AttributeMatchAuthenticator.ParseFields | src/main/java/io/github/naiin9/keycloak/broker/AttributeMatchAuthenticator.java:66-86 | an entry a:b:c, possibly followed by more fields, with colon-free fields and non-blank a and b parses to the rule on trim(a) and trim(b), hashed exactly when trim(c) equals "true" ignoring case (a blank c gives an unhashed rule) |
| AttributeMatchAuthenticator.MalformedIff | src/main/java/io/github/naiin9/keycloak/broker/AttributeMatchAuthenticator.java:66-84 | an entry is malformed exactly when it is not blank and its trimmed text splits into fewer than two fields or into a blank first or second field |
| AttributeMatchAuthenticator.TwoFieldEntryIsUnhashed | src/main/java/io/github/naiin9/keycloak/broker/AttributeMatchAuthenticator.java:86 | "email:email" parses to the unhashed rule from the email IdP attribute to the email user attribute |
| AttributeMatchAuthenticator.HashFlagEntry | src/main/java/io/github/naiin9/keycloak/broker/AttributeMatchAuthenticator.java:86 | "citizen_id:cid:true" parses to the hashed rule from the citizen_id IdP attribute to the cid user attribute |
| AttributeMatchAuthenticator.EmailRuleLooksUpRawValue | src/main/java/io/github/naiin9/keycloak/broker/AttributeMatchAuthenticator.java:88-129 | as the first rule, "email:email" looks users up with the raw, unhashed IdP email value |
| AttributeMatchAuthenticator.HashFlagRuleLooksUpDigest | src/main/java/io/github/naiin9/keycloak/broker/AttributeMatchAuthenticator.java:88-129 | as the first rule, "citizen_id:cid:true" looks users up by cid with the digest of the citizen_id value and the salt, not the raw value |
| AttributeMatchAuthenticator.HashFlagRuleFiltersByDigest | src/main/java/io/github/naiin9/keycloak/broker/AttributeMatchAuthenticator.java:88-143 | as a later rule, "citizen_id:cid:true" filters the candidates by cid against the digest of the citizen_id value and the salt |
| AttributeMatchAuthenticator.SingleFieldIsMalformed | src/main/java/io/github/naiin9/keycloak/broker/AttributeMatchAuthenticator.java:71-75 | "onlyonefield" is a malformed entry |
| AttributeMatchAuthenticator.SplitEdgeCases | src/main/java/io/github/naiin9/keycloak/broker/AttributeMatchAuthenticator.java:69-84 | "a::" splits into one field (trailing empty fields dropped) and ":b" into an empty and a "b" field, and both entries are malformed |
| AttributeMatchAuthenticator.IdpValue | src/main/java/io/github/naiin9/keycloak/broker/AttributeMatchAuthenticator.java:88-89 | the IdP value is present exactly when the key has a non-empty value list, and is then the first value |
| AttributeMatchAuthenticator.HashValue | src/main/java/io/github/naiin9/keycloak/broker/AttributeMatchAuthenticator.java:187-195 | the authenticator's hash is the digest of value + salt, and fails (an exception in the source) exactly when the digest cannot be computed |
| AttributeMatchAuthenticator.Matches | src/main/java/io/github/naiin9/keycloak/broker/AttributeMatchAuthenticator.java:133 | a candidate matches only when reading its first attribute value succeeds and finds a value (equals on a null attribute is false) |
| AttributeMatchAuthenticator.Filter | src/main/java/io/github/naiin9/keycloak/broker/AttributeMatchAuthenticator.java:132-134 | the filter throws exactly when reading some candidate's attribute throws; otherwise it keeps an order-preserving sub-list holding each user as often as before when its first value matches exactly, and not at all otherwise |
| AttributeMatchAuthenticator.FirstRule | src/main/java/io/github/naiin9/keycloak/broker/AttributeMatchAuthenticator.java:103-129 | an email or username key (ignoring case) whose dedicated lookup finds a user yields exactly that user, and one whose lookup throws stops with INTERNAL_ERROR; when no dedicated lookup applies or it finds nobody, the attribute search decides: a throw stops with INTERNAL_ERROR, an empty result with UNKNOWN_USER on the no-user-found page, and otherwise its result is the candidate list; candidates are never empty |
| AttributeMatchAuthenticator.LaterRule | src/main/java/io/github/naiin9/keycloak/broker/AttributeMatchAuthenticator.java:130-143 | later candidates are exactly the filter's result, a non-empty sub-list of the previous ones, never longer; INTERNAL_ERROR exactly when the filter throws; UNKNOWN_USER on the data-mismatch page exactly when the filter keeps nobody |
| AttributeMatchAuthenticator.StepEntry | src/main/java/io/github/naiin9/keycloak/broker/AttributeMatchAuthenticator.java:65-143 | one loop pass never links a user by itself (it stops only as inconclusive or failed), and a blank entry leaves the candidates as they are |
| AttributeMatchAuthenticator.Run | src/main/java/io/github/naiin9/keycloak/broker/AttributeMatchAuthenticator.java:64-144 | the loop stops only as inconclusive or failed, never with a linked user |
| AttributeMatchAuthenticator.HandleMatchResult | src/main/java/io/github/naiin9/keycloak/broker/AttributeMatchAuthenticator.java:156-171 | exactly one candidate is linked; more than one fails with INTERNAL_ERROR on the multiple-users page; none fails with UNKNOWN_USER on the no-user-found page (each an if-and-only-if) |
| AttributeMatchAuthenticator.GetSalt | src/main/java/io/github/naiin9/keycloak/broker/AttributeMatchAuthenticator.java:174-185 | the configured salt wins when set; otherwise the environment's salt or the fallback, and never an empty salt |
| AttributeMatchAuthenticator.Authenticate | src/main/java/io/github/naiin9/keycloak/broker/AttributeMatchAuthenticator.java:49-55 | without a configuration or a matching.rules value the attempt is inconclusive |
| AttributeMatchAuthenticator.RunAppend | src/main/java/io/github/naiin9/keycloak/broker/AttributeMatchAuthenticator.java:65 | the loop over two runs of entries is the loop over the first, then, unless it stopped, over the second |
| AttributeMatchAuthenticator.RunBlank | src/main/java/io/github/naiin9/keycloak/broker/AttributeMatchAuthenticator.java:67 | blank entries leave the candidates unchanged |
| AttributeMatchAuthenticator.StopsAt | src/main/java/io/github/naiin9/keycloak/broker/AttributeMatchAuthenticator.java:71-75 | fail-fast: an entry that stops the loop when reached decides the outcome, and no later entry matters |
| AttributeMatchAuthenticator.MalformedEntryAborts | src/main/java/io/github/naiin9/keycloak/broker/AttributeMatchAuthenticator.java:71-84 | a malformed entry, once reached, ends the whole evaluation with INTERNAL_ERROR |
| AttributeMatchAuthenticator.MissingAttributeIsInconclusive | src/main/java/io/github/naiin9/keycloak/broker/AttributeMatchAuthenticator.java:88-95 | a rule whose IdP value is missing or empty, once reached, ends the evaluation as inconclusive, even after earlier rules narrowed the candidates |
| AttributeMatchAuthenticator.HashFailureAborts | src/main/java/io/github/naiin9/keycloak/broker/AttributeMatchAuthenticator.java:187-194 | a hashed rule whose digest cannot be computed, once reached, ends the evaluation with INTERNAL_ERROR |
| AttributeMatchAuthenticator.StepNarrows | src/main/java/io/github/naiin9/keycloak/broker/AttributeMatchAuthenticator.java:130-143 | one later entry that does not stop keeps an order-preserving sub-list, non-empty when the candidates were, holding exactly the users that pass it |
| AttributeMatchAuthenticator.SatisfiesAllCons | src/main/java/io/github/naiin9/keycloak/broker/AttributeMatchAuthenticator.java:130-143 | passing every entry is passing the first and every later one |
| AttributeMatchAuthenticator.LaterRulesNarrow | src/main/java/io/github/naiin9/keycloak/broker/AttributeMatchAuthenticator.java:130-143 | after the first rule the candidates only shrink: an order-preserving sub-list, never longer, non-empty, holding each user as often as before exactly when it passes every later rule |
| AttributeMatchAuthenticator.FirstRuleIndex | src/main/java/io/github/naiin9/keycloak/broker/AttributeMatchAuthenticator.java:67 | the position of the first rule: every entry before it is blank and the entry there is not |
| AttributeMatchAuthenticator.RunFromStart | src/main/java/io/github/naiin9/keycloak/broker/AttributeMatchAuthenticator.java:103-143 | the first non-blank entry looks users up and the rest filter them; with no rule the loop ends with no candidates, otherwise with a non-empty list |
| AttributeMatchAuthenticator.FirstRuleStopEndsRun | src/main/java/io/github/naiin9/keycloak/broker/AttributeMatchAuthenticator.java:121-126 | when the first rule finds nobody (or stops otherwise), the evaluation ends with its outcome and no later rule is evaluated |
| AttributeMatchAuthenticator.NoRulesNeverLinks | src/main/java/io/github/naiin9/keycloak/broker/AttributeMatchAuthenticator.java:146-171 | a rule string with only blank entries fails with UNKNOWN_USER on the no-user-found page and never links |
| AttributeMatchAuthenticator.EmptyRulesNeverLink | src/main/java/io/github/naiin9/keycloak/broker/AttributeMatchAuthenticator.java:61 | an empty rule string fails with UNKNOWN_USER on the no-user-found page |
| AttributeMatchAuthenticator.SingleSurvivor | src/main/java/io/github/naiin9/keycloak/broker/AttributeMatchAuthenticator.java:130-146 | a loop ending with one candidate u means u occurs once among the first rule's candidates, passes every later rule, and is the only one of them that does |
| AttributeMatchAuthenticator.LinkedIsUniqueSurvivor | src/main/java/io/github/naiin9/keycloak/broker/AttributeMatchAuthenticator.java:156-162 | a linked user is the unique first-rule candidate that passes every later rule; the authenticator never picks one of several |
| AttributeMatchAuthenticator.UniqueSurvivorRuns | src/main/java/io/github/naiin9/keycloak/broker/AttributeMatchAuthenticator.java:130-146 | conversely, a loop that does not stop and has a unique survivor u ends with exactly the one candidate u |
| AttributeMatchAuthenticator.UniqueSurvivorIsLinked | src/main/java/io/github/naiin9/keycloak/broker/AttributeMatchAuthenticator.java:146-162 | when the rules do not stop the loop and u is the unique first-rule candidate passing every later rule, the authenticator links u |
| AttributeMatchAuthenticator.MatchRule | src/main/java/io/github/naiin9/keycloak/broker/AttributeMatchAuthenticator.java:88-143 | the imperative loop body, with its early returns, computes exactly one evaluation step |
| AttributeMatchAuthenticator.EvaluateRules | src/main/java/io/github/naiin9/keycloak/broker/AttributeMatchAuthenticator.java:61-144 | the imperative loop over the split entries ends exactly as the loop specification does |
| AttributeMatchAuthenticator.AuthenticateImpl | src/main/java/io/github/naiin9/keycloak/broker/AttributeMatchAuthenticator.java:44-154 | the flow context ends up reporting the outcome of the whole evaluation, and only a linked user is set and noted |
| IdpIdHashMapper.BrokeredIdentityContext.SetId | src/main/java/io/github/naiin9/keycloak/broker/IdpIdHashMapper.java:63 | setId replaces the subject id and writes nothing else |
| IdpIdHashMapper.BrokeredIdentityContext.SetUsername | src/main/java/io/github/naiin9/keycloak/broker/IdpIdHashMapper.java:64 | setUsername replaces the username and writes nothing else |
| IdpIdHashMapper.ConcatText | src/main/java/io/github/naiin9/keycloak/broker/IdpIdHashMapper.java:70 | string concatenation writes a null value as the text "null" |
| IdpIdHashMapper.HashValue | src/main/java/io/github/naiin9/keycloak/broker/IdpIdHashMapper.java:67-76 | the result is the digest of value + salt when it can be computed and the value itself otherwise, so a non-null value never becomes null |
| IdpIdHashMapper.ChooseSalt | src/main/java/io/github/naiin9/keycloak/broker/IdpIdHashMapper.java:50-57 | the mapper's step-by-step salt chain picks the same salt as the shared precedence: configured, then environment, then fallback, with empty treated as unset |
| IdpIdHashMapper.PreprocessFederatedIdentity | src/main/java/io/github/naiin9/keycloak/broker/IdpIdHashMapper.java:42-65 | without a subject id nothing changes; otherwise id and username become their hashes under the one resolved salt, and nothing else of the identity is written |
| IdpIdHashMapper.HashedIdIsDigestOrOriginal | src/main/java/io/github/naiin9/keycloak/broker/IdpIdHashMapper.java:72-75 | a subject id becomes its digest or, when hashing fails, stays as it was; it never becomes null |
| IdpIdHashMapper.NullUsernameHashesNullText | src/main/java/io/github/naiin9/keycloak/broker/IdpIdHashMapper.java:64-70 | a null username is hashed as "null" + salt, so an identity without a username gets the same pseudonym as one whose username is the text "null" |
| IdpIdHashMapper.SameSaltSameHash | src/main/java/io/github/naiin9/keycloak/broker/IdpIdHashMapper.java:85 | with the same configured salt and environment, the mapper's pseudonym of a value equals the comparison value of a hashed authenticator rule |

## Left out

- Logging and the `debug.logging.enabled` flag: they only gate log lines.
- SHA-256 and URL-safe Base64: they are foreign library code, modelled as an uninterpreted digest. So collision resistance, and the claim that different salts give different hashes, cannot be stated.
- AttributeMatchAuthenticatorFactory.java is not part of this model, beyond the configuration key strings. The same holds for the mapper's configuration descriptors and display getters and the authenticator's no-op overrides (host plugin boilerplate).
- Keycloak's session, realm, form rendering and user objects are reduced to the directory functions, a user identity and an error page (message key and HTTP status).
- The lazy `Stream` of candidates is a sequence. The filter is modelled as reading every candidate, which gives the same outcome as a stream stopping at its first exception.
- IdP attribute lists are assumed to hold no null elements. In the source, a null first element would throw inside the try block and end as INTERNAL_ERROR.
- The mapper's configuration map is assumed non-null, as is the configuration of the authenticator's model when present.
- An exception thrown while building an error page inside the loop is not modelled. In the source (AttributeMatchAuthenticator.java lines 123-124 and 138-139) such an exception would reach the catch block at lines 150-153 and end as INTERNAL_ERROR; the model reports UNKNOWN_USER with the page.
- An exception thrown while reporting the decision is not modelled. In the source, that would be setAuthNote throwing after setUser, which the catch block would turn into a failure.
- Strings are sequences of Unicode scalar values, not UTF-16 code units. Trimming, splitting on ',', '\n' and ':', and the email/username key comparison do not depend on the difference.
- JavaStrings.EqualsIgnoreCase: models `equalsIgnoreCase` only against a lower-case ASCII literal (the only way the source uses it). The general case-mapping tables are not modelled.
