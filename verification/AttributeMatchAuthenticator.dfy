/**
 * The attribute-matching authenticator of the identity-broker login flow: it reads
 * the rule string `idp:user[:hash], ...` from its configuration, evaluates the rules in
 * order against the brokered identity's attributes and the user directory, and
 * reports a single linked user, an inconclusive attempt, or a failure with an error
 * code and page.
 *
 * The evaluation is specified by pure functions (StepEntry, Run, Authenticate); the
 * method EvaluateRules is the source's loop over the entries, proved equal to Run,
 * and AuthenticateImpl drives the flow context as the source does.
 */
module AttributeMatchAuthenticator {
  import opened Wrappers
  import opened JavaStrings
  import Privacy
  import opened AuthenticationFlow

  /** Configuration key of the rule string. */
  const ConfMatchingRules := "matching.rules"

  /** The directory's well-known attribute names, compared ignoring case. */
  const EmailKey := "email"
  const UsernameKey := "username"

  /** Rule entries are separated by commas or newlines; fields by colons. */
  const EntrySeparators: set<char> := {',', '\n'}
  const FieldSeparators: set<char> := {':'}

  /**
   * The user directory as the authenticator sees it. Every call may throw (Threw).
   * The two dedicated lookups answer null (None) when no user has that email or
   * username; the attribute search returns the users in the directory's order;
   * getFirstAttribute is the user's first value for an attribute, or null.
   */
  datatype UserDirectory = UserDirectory(
    getUserByEmail: string -> Fallible<Option<UserModel>>,
    getUserByUsername: string -> Fallible<Option<UserModel>>,
    searchForUserByUserAttribute: (string, string) -> Fallible<seq<UserModel>>,
    getFirstAttribute: (UserModel, string) -> Fallible<Option<string>>)

  /** What one evaluation reads: the brokered identity's attributes, the directory,
      the digest capability, and the one salt resolved for this evaluation. */
  datatype Inputs = Inputs(
    attributes: map<string, seq<string>>,
    directory: UserDirectory,
    hasher: Privacy.Hasher,
    salt: string)

  /** One matching rule: the IdP attribute to read, the user attribute to compare it with,
      and whether the IdP value is hashed before comparing. */
  datatype Rule = Rule(idpKey: string, userKey: string, shouldHash: bool)

  /** One entry of the rule string, as the loop classifies it. */
  datatype Entry = Blank | Malformed | Parsed(rule: Rule)

  /** The loop's state between entries: the candidate users once a rule has run
      (None before the first rule), or the outcome it stopped with. */
  datatype Step = Continue(candidates: Option<seq<UserModel>>) | Stop(outcome: Outcome)

  /** The error pages the authenticator renders, with their HTTP status. */
  const NoUserFoundPage := ErrorPage("idp-linker-no-user-found", 403)
  const DataMismatchPage := ErrorPage("idp-linker-data-mismatch", 403)
  const MultipleUsersPage := ErrorPage("idp-linker-multiple-users-found", 500)

  /** The failure reported for a malformed rule and for any exception. */
  const InternalFailure := Failed(InternalError, None)

  // ---------------------------------------------------------------------------
  // Parsing one entry

  /** A key as the parser produces it: non-empty, trimmed, and without a colon. */
  predicate IsRuleKey(k: string)
  {
    k != [] && Trim(k) == k && DelimiterFree(k, FieldSeparators)
  }

  /**
   * One entry of the rule string: trimmed, blank entries skipped; split on ':';
   * fewer than two fields, or an empty IdP or user key after trimming, is malformed;
   * the hash flag is set only by a third field that trims to "true", ignoring case.
   */
  function ParseEntry(entry: string): (e: Entry)
    ensures e == Blank <==> IsBlank(entry)
    ensures e.Parsed? ==> IsRuleKey(e.rule.idpKey) && IsRuleKey(e.rule.userKey)
  {
    var trimmedEntry := Trim(entry);
    if trimmedEntry == [] then Blank
    else
      var parts := Split(trimmedEntry, FieldSeparators);
      if |parts| < 2 then Malformed
      else
        var idpKey := Trim(parts[0]);
        var userKey := Trim(parts[1]);
        if idpKey == [] || userKey == [] then Malformed
        else
          TrimKeepsDelimiterFree(parts[0], FieldSeparators);
          TrimKeepsDelimiterFree(parts[1], FieldSeparators);
          TrimIdempotent(parts[0]);
          TrimIdempotent(parts[1]);
          Parsed(Rule(idpKey, userKey, |parts| >= 3 && EqualsIgnoreCase("true", Trim(parts[2]))))
  }

  /** The entry text of a rule, with its flag spelled out as a third field. */
  function Render(r: Rule): string
  {
    r.idpKey + ":" + r.userKey + ":" + (if r.shouldHash then "true" else "false")
  }

  /** Parsing the rendering of a rule with well-formed keys gives the rule back. */
  lemma ParseRender(entry: string, r: Rule)
    requires IsRuleKey(r.idpKey) && IsRuleKey(r.userKey) && entry == Render(r)
    ensures ParseEntry(entry) == Parsed(r)
  {
    var flag := if r.shouldHash then "true" else "false";
    assert entry == r.idpKey + ":" + r.userKey + ":" + flag + [];
    assert DelimiterFree(flag, FieldSeparators) && !IsTrimmable(flag[0]) && !IsTrimmable(flag[|flag| - 1]);
    TrimOfTrimmed(flag);
    ParseFields(entry, r.idpKey, r.userKey, flag, []);
    assert EqualsIgnoreCase("true", flag) == r.shouldHash;
  }

  /** A two-field entry a:b whose fields hold no colon and are not blank parses to the
      unhashed rule on the trimmed fields. */
  lemma ParseTwoFields(entry: string, a: string, b: string)
    requires DelimiterFree(a, FieldSeparators) && DelimiterFree(b, FieldSeparators)
    requires !IsBlank(a) && !IsBlank(b)
    requires entry == a + ":" + b
    ensures ParseEntry(entry) == Parsed(Rule(Trim(a), Trim(b), false))
  {
    var a1, b1 := TrimAroundParts(a, [':'], b, FieldSeparators);
    SplitTwo(a1, b1, ':', FieldSeparators);
  }

  /** How the first three fields of an entry a:b:c... come out of trimming and splitting it:
      at least two fields that trim like a and b, and a third that trims like c, or none
      when c trims to nothing. */
  predicate FieldsOf(entry: string, a: string, b: string, c: string)
  {
    var parts := Split(Trim(entry), FieldSeparators);
    && |parts| >= 2
    && Trim(parts[0]) == Trim(a)
    && Trim(parts[1]) == Trim(b)
    && (|parts| >= 3 ==> Trim(parts[2]) == Trim(c))
    && (|parts| < 3 ==> Trim(c) == [])
  }

  /** The fields of a:b:c with a non-blank third field. */
  lemma FieldsOfThree(entry: string, a: string, b: string, c: string)
    requires DelimiterFree(a, FieldSeparators) && DelimiterFree(b, FieldSeparators) && DelimiterFree(c, FieldSeparators)
    requires !IsBlank(a) && !IsBlank(b) && !IsBlank(c)
    requires entry == a + ":" + b + ":" + c
    ensures FieldsOf(entry, a, b, c)
  {
    Regroup3(a, [':'], b, [':'], c);
    var a1, c1 := TrimAroundParts(a, [':'] + b + [':'], c, FieldSeparators);
    Regroup3(a1, [':'], b, [':'], c1);
    SplitThree(a1, b, c1, ':', FieldSeparators);
  }

  /** The pieces of a + [d] + b + [d] + rest when a and b hold no delimiter. */
  lemma PiecesOfTwoThen(a: string, b: string, rest: string)
    requires DelimiterFree(a, FieldSeparators) && DelimiterFree(b, FieldSeparators)
    ensures Pieces(a + [':'] + b + [':'] + rest, FieldSeparators) == [a, b] + Pieces(rest, FieldSeparators)
  {
    assert a + [':'] + b + [':'] + rest == a + [':'] + (b + [':'] + rest);
    PiecesCons(a, ':', FieldSeparators, b + [':'] + rest);
    PiecesCons(b, ':', FieldSeparators, rest);
  }

  /** The pieces of a:b:c followed by a colon and more, when a, b and c hold no colon. */
  lemma PiecesOfThreeThen(a: string, b: string, c: string, rest: string)
    requires DelimiterFree(a, FieldSeparators) && DelimiterFree(b, FieldSeparators) && DelimiterFree(c, FieldSeparators)
    requires rest != [] && rest[0] == ':'
    ensures Pieces(a + [':'] + b + [':'] + c + rest, FieldSeparators)
            == [a, b, c] + Pieces(rest[1..], FieldSeparators)
  {
    assert rest == [':'] + rest[1..];
    RegroupTail(a + [':'] + b + [':'], c, rest, [':'], rest[1..]);
    PiecesOfTwoThen(a, b, c + [':'] + rest[1..]);
    PiecesCons(c, ':', FieldSeparators, rest[1..]);
  }

  /** The fields of a:b:c with a blank third field: trimming removes it, and split drops
      the empty field left after the second colon. */
  lemma FieldsOfBlankThird(entry: string, a: string, b: string, c: string)
    requires DelimiterFree(a, FieldSeparators) && DelimiterFree(b, FieldSeparators)
    requires !IsBlank(a) && !IsBlank(b) && IsBlank(c)
    requires entry == a + ":" + b + ":" + c
    ensures FieldsOf(entry, a, b, c)
  {
    Regroup3(a, [':'], b, [':'], c);
    var a1 := TrimBlankTailParts(a, [':'] + b + [':'], c, FieldSeparators);
    Regroup3(a1, [':'], b, [':'], []);
    var t := a1 + [':'] + b + [':'] + [];
    assert Trim(entry) == t;
    PiecesOfTwoThen(a1, b, []);
    var ps := Pieces(t, FieldSeparators);
    assert Pieces([], FieldSeparators) == [[]];
    assert ps[1] == b && b != [] && ps[2] == [];
    assert CountDelims(t, FieldSeparators) == 2;
  }

  /** The fields of a:b:c:rest, whatever follows the third colon. */
  lemma FieldsOfMore(entry: string, a: string, b: string, c: string, rest: string)
    requires DelimiterFree(a, FieldSeparators) && DelimiterFree(b, FieldSeparators) && DelimiterFree(c, FieldSeparators)
    requires !IsBlank(a) && !IsBlank(b)
    requires rest != [] && rest[0] == ':'
    requires entry == a + ":" + b + ":" + c + rest
    ensures FieldsOf(entry, a, b, c)
  {
    assert !IsTrimmable(rest[0]);
    Regroup4(a, [':'], b, [':'], c, rest);
    var a1, r1 := TrimAroundParts(a, [':'] + b + [':'] + c, rest, FieldSeparators);
    Regroup4(a1, [':'], b, [':'], c, r1);
    PiecesOfThreeThen(a1, b, c, r1);
    var ps := Pieces(a1 + [':'] + b + [':'] + c + r1, FieldSeparators);
    assert ps[0] == a1 && ps[1] == b && ps[2] == c;
  }

  /** Parsing an entry whose first three fields are known. */
  lemma ParseOfFields(entry: string, a: string, b: string, c: string)
    requires !IsBlank(a) && !IsBlank(b)
    requires FieldsOf(entry, a, b, c)
    ensures ParseEntry(entry) == Parsed(Rule(Trim(a), Trim(b), EqualsIgnoreCase("true", Trim(c))))
  {
    assert CountDelims([], FieldSeparators) == 0;
    assert !EqualsIgnoreCase("true", []);
  }

  /**
   * An entry a:b:c, possibly followed by further fields, whose first three fields hold
   * no colon and whose first two are not blank parses to the rule on the trimmed first
   * two fields, hashed exactly when the trimmed third field is "true" ignoring case.
   */
  lemma ParseFields(entry: string, a: string, b: string, c: string, rest: string)
    requires DelimiterFree(a, FieldSeparators) && DelimiterFree(b, FieldSeparators) && DelimiterFree(c, FieldSeparators)
    requires !IsBlank(a) && !IsBlank(b)
    requires rest == [] || rest[0] == ':'
    requires entry == a + ":" + b + ":" + c + rest
    ensures ParseEntry(entry) == Parsed(Rule(Trim(a), Trim(b), EqualsIgnoreCase("true", Trim(c))))
  {
    if rest != [] {
      FieldsOfMore(entry, a, b, c, rest);
    } else if IsBlank(c) {
      FieldsOfBlankThird(entry, a, b, c);
    } else {
      assert entry == a + ":" + b + ":" + c;
      FieldsOfThree(entry, a, b, c);
    }
    ParseOfFields(entry, a, b, c);
  }

  /** An entry is malformed exactly when it is not blank and, after trimming and splitting,
      it has fewer than two fields or a blank first or second field. */
  lemma MalformedIff(entry: string)
    ensures ParseEntry(entry) == Malformed <==>
              !IsBlank(entry)
              && var parts := Split(Trim(entry), FieldSeparators);
                 |parts| < 2 || IsBlank(parts[0]) || IsBlank(parts[1])
  {
  }

  /** "email:email" has no third field, so it compares the raw value against email. */
  lemma TwoFieldEntryIsUnhashed(entry: string)
    requires entry == "email:email"
    ensures ParseEntry(entry) == Parsed(Rule("email", "email", false))
  {
    assert !IsTrimmable("email"[0]);
    ParseTwoFields(entry, "email", "email");
    TrimOfTrimmed("email");
  }

  /** "citizen_id:cid:true" hashes the citizen_id value before comparing it with cid. */
  lemma HashFlagEntry(entry: string)
    requires entry == "citizen_id:cid:true"
    ensures ParseEntry(entry) == Parsed(Rule("citizen_id", "cid", true))
  {
    assert entry == "citizen_id" + ":" + "cid" + ":" + "true" + [];
    HashFlagFields();
    ParseFields(entry, "citizen_id", "cid", "true", []);
    assert Trim("citizen_id") == "citizen_id" && Trim("cid") == "cid" && Trim("true") == "true" by {
      HashFlagFields();
    }
  }

  /** The fields of "citizen_id:cid:true" hold no colon, are not blank and are already
      trimmed. */
  lemma HashFlagFields()
    ensures DelimiterFree("citizen_id", FieldSeparators) && DelimiterFree("cid", FieldSeparators)
    ensures DelimiterFree("true", FieldSeparators)
    ensures !IsBlank("citizen_id") && !IsBlank("cid")
    ensures Trim("citizen_id") == "citizen_id" && Trim("cid") == "cid" && Trim("true") == "true"
  {
    assert !IsTrimmable("citizen_id"[0]) && !IsTrimmable("cid"[0]);
    TrimOfTrimmed("citizen_id");
    TrimOfTrimmed("cid");
    TrimOfTrimmed("true");
  }

  /** As the first rule, "email:email" looks users up by the raw IdP email. */
  lemma EmailRuleLooksUpRawValue(inputs: Inputs, v: string)
    requires IdpValue(inputs.attributes, "email") == Some(v) && v != ""
    ensures StepEntry(ParseEntry("email:email"), None, inputs) == FirstRule("email", v, inputs.directory)
  {
    TwoFieldEntryIsUnhashed("email:email");
  }

  /** As the first rule, "citizen_id:cid:true" looks users up by the digest of the
      citizen_id value and the salt. */
  lemma HashFlagRuleLooksUpDigest(inputs: Inputs, v: string)
    requires IdpValue(inputs.attributes, "citizen_id") == Some(v) && v != ""
    requires inputs.hasher.digest(v + inputs.salt).Some?
    ensures StepEntry(ParseEntry("citizen_id:cid:true"), None, inputs)
            == FirstRule("cid", inputs.hasher.digest(v + inputs.salt).value, inputs.directory)
  {
    HashFlagEntry("citizen_id:cid:true");
  }

  /** As a later rule, "citizen_id:cid:true" keeps the candidates whose cid equals the
      digest of the citizen_id value and the salt. */
  lemma HashFlagRuleFiltersByDigest(inputs: Inputs, v: string, c: seq<UserModel>)
    requires IdpValue(inputs.attributes, "citizen_id") == Some(v) && v != ""
    requires inputs.hasher.digest(v + inputs.salt).Some?
    ensures StepEntry(ParseEntry("citizen_id:cid:true"), Some(c), inputs)
            == LaterRule(c, "cid", inputs.hasher.digest(v + inputs.salt).value, inputs.directory)
  {
    HashFlagEntry("citizen_id:cid:true");
  }

  /** A single field is a malformed entry. */
  lemma SingleFieldIsMalformed()
    ensures ParseEntry("onlyonefield") == Malformed
  {
    var field := "onlyonefield";
    assert !IsTrimmable(field[0]) && !IsTrimmable(field[|field| - 1]);
    TrimOfTrimmed(field);
    PiecesOfDelimiterFree(field, FieldSeparators);
  }

  /** Java's split drops trailing empty fields, so "a::" has a single field and is malformed,
      while ":b" keeps its leading empty field and is malformed for its empty IdP key. */
  lemma SplitEdgeCases()
    ensures Split("a::", FieldSeparators) == ["a"]
    ensures Split(":b", FieldSeparators) == ["", "b"]
    ensures ParseEntry("a::") == Malformed
    ensures ParseEntry(":b") == Malformed
  {
    TrailingColons();
    SplitTwo("", "b", ':', FieldSeparators);
    assert ":b" == "" + [':'] + "b";
    TrimOfTrimmed(":b");
  }

  /** "a::" is already trimmed and splits into the single field "a". */
  lemma TrailingColons()
    ensures Trim("a::") == "a::"
    ensures Split("a::", FieldSeparators) == ["a"]
  {
    var tail := "" + [':'] + "";
    var aa := "a" + [':'] + tail;
    assert "a::" == aa;
    PiecesCons("a", ':', FieldSeparators, tail);
    PiecesCons("", ':', FieldSeparators, "");
    assert Pieces(aa, FieldSeparators) == ["a", "", ""];
    assert DropTrailingEmpty(["a", "", ""]) == ["a"];
    TrimOfTrimmed(aa);
  }

  // ---------------------------------------------------------------------------
  // Evaluating one rule

  /** The first IdP value for a key, or null when the key is absent or has no values. */
  function IdpValue(attributes: map<string, seq<string>>, key: string): (v: Option<string>)
    ensures v.Some? <==> key in attributes && attributes[key] != []
    ensures v.Some? ==> v.value == attributes[key][0]
  {
    if key in attributes && attributes[key] != [] then Some(attributes[key][0]) else None
  }

  /** The authenticator's hash of a value: the digest of value + salt; None is the
      exception it throws when the digest algorithm is unavailable. */
  function HashValue(h: Privacy.Hasher, value: string, salt: string): (r: Option<string>)
    ensures r.None? <==> h.digest(value + salt).None?
    ensures r.Some? ==> r.value == h.digest(value + salt).value
  {
    h.digest(Privacy.SaltedInput(value, salt))
  }

  /** User u's first value for key is exactly value (case-sensitive; null never matches). */
  predicate Matches(dir: UserDirectory, u: UserModel, key: string, value: string): (b: bool)
    ensures b ==> dir.getFirstAttribute(u, key).Ok? && dir.getFirstAttribute(u, key).value.Some?
  {
    dir.getFirstAttribute(u, key) == Ok(Some(value))
  }

  /** a is an order-preserving sub-list of b. */
  predicate IsSubsequence<T(==)>(a: seq<T>, b: seq<T>)
    decreases |b|
  {
    a == [] || (b != [] && (IsSubsequence(a, b[1..]) || (a[0] == b[0] && IsSubsequence(a[1..], b[1..]))))
  }

  /** A sub-list is never longer and holds nothing new. */
  lemma {:induction false} SubsequenceShrinks<T>(a: seq<T>, b: seq<T>)
    requires IsSubsequence(a, b)
    ensures |a| <= |b| && multiset(a) <= multiset(b)
    decreases |b|
  {
    if a != [] {
      assert b == [b[0]] + b[1..];
      if IsSubsequence(a, b[1..]) {
        SubsequenceShrinks(a, b[1..]);
      } else {
        assert a == [a[0]] + a[1..];
        SubsequenceShrinks(a[1..], b[1..]);
      }
    }
  }

  /** Every list is a sub-list of itself. */
  lemma {:induction false} SubsequenceReflexive<T>(a: seq<T>)
    ensures IsSubsequence(a, a)
    decreases |a|
  {
    if a != [] {
      SubsequenceReflexive(a[1..]);
    }
  }

  /** A sub-list of a sub-list is a sub-list. */
  lemma {:induction false} SubsequenceTransitive<T>(a: seq<T>, b: seq<T>, c: seq<T>)
    requires IsSubsequence(a, b) && IsSubsequence(b, c)
    ensures IsSubsequence(a, c)
    decreases |c|
  {
    if a != [] {
      assert b != [] && c != [];
      if IsSubsequence(b, c[1..]) {
        SubsequenceTransitive(a, b, c[1..]);
      } else {
        assert b[0] == c[0] && IsSubsequence(b[1..], c[1..]);
        if IsSubsequence(a, b[1..]) {
          SubsequenceTransitive(a, b[1..], c[1..]);
        } else {
          SubsequenceTransitive(a[1..], b[1..], c[1..]);
        }
      }
    }
  }

  /**
   * The in-memory filter of a later rule: the previous candidates whose first value of
   * key equals value, in their order. The stream stops at the first exception, so the
   * filter throws when reading any candidate's attribute throws.
   */
  function Filter(users: seq<UserModel>, key: string, value: string, dir: UserDirectory): (r: Fallible<seq<UserModel>>)
    ensures r.Threw? <==> exists k :: 0 <= k < |users| && dir.getFirstAttribute(users[k], key).Threw?
    ensures r.Ok? ==> IsSubsequence(r.value, users)
    ensures r.Ok? ==> forall u :: multiset(r.value)[u] == if Matches(dir, u, key, value) then multiset(users)[u] else 0
  {
    if users == [] then Ok([])
    else
      assert users == [users[0]] + users[1..];
      match dir.getFirstAttribute(users[0], key)
      case Threw => Threw
      case Ok(first) =>
        match Filter(users[1..], key, value, dir)
        case Threw =>
          var k :| 0 <= k < |users[1..]| && dir.getFirstAttribute(users[1..][k], key).Threw?;
          assert users[k + 1] == users[1..][k];
          Threw
        case Ok(rest) =>
          assert forall k :: 1 <= k < |users| ==> users[k] == users[1..][k - 1];
          if first == Some(value) then
            SubsequenceShrinks(rest, users[1..]);
            Ok([users[0]] + rest)
          else Ok(rest)
  }

  /**
   * The first rule: a user key equal to "email" or "username" ignoring case asks the
   * dedicated lookup; when that is not such a key, or the lookup finds nobody, the
   * generic attribute search runs, and an empty result stops with UNKNOWN_USER on the
   * no-user-found page.
   */
  function FirstRule(userKey: string, matchValue: string, dir: UserDirectory): (s: Step)
    ensures EqualsIgnoreCase(EmailKey, userKey) && dir.getUserByEmail(matchValue).Ok?
              && dir.getUserByEmail(matchValue).value.Some?
            ==> s == Continue(Some([dir.getUserByEmail(matchValue).value.value]))
    ensures EqualsIgnoreCase(UsernameKey, userKey) && dir.getUserByUsername(matchValue).Ok?
              && dir.getUserByUsername(matchValue).value.Some?
            ==> s == Continue(Some([dir.getUserByUsername(matchValue).value.value]))
    ensures EqualsIgnoreCase(EmailKey, userKey) && dir.getUserByEmail(matchValue).Threw? ==> s == Stop(InternalFailure)
    ensures EqualsIgnoreCase(UsernameKey, userKey) && dir.getUserByUsername(matchValue).Threw? ==> s == Stop(InternalFailure)
    ensures (EqualsIgnoreCase(EmailKey, userKey) ==> dir.getUserByEmail(matchValue) == Ok(None))
            && (EqualsIgnoreCase(UsernameKey, userKey) ==> dir.getUserByUsername(matchValue) == Ok(None)) ==>
              s == match dir.searchForUserByUserAttribute(userKey, matchValue)
                   case Threw => Stop(InternalFailure)
                   case Ok(found) => if found == [] then Stop(Failed(UnknownUser, Some(NoUserFoundPage)))
                                     else Continue(Some(found))
    ensures s.Continue? ==> s.candidates.Some? && s.candidates.value != []
    ensures s.Stop? ==> s.outcome in {InternalFailure, Failed(UnknownUser, Some(NoUserFoundPage))}
  {
    var foundUser :=
      if EqualsIgnoreCase(EmailKey, userKey) then dir.getUserByEmail(matchValue)
      else if EqualsIgnoreCase(UsernameKey, userKey) then dir.getUserByUsername(matchValue)
      else Ok(None);
    match foundUser
    case Threw => Stop(InternalFailure)
    case Ok(Some(u)) => Continue(Some([u]))
    case Ok(None) =>
      match dir.searchForUserByUserAttribute(userKey, matchValue)
      case Threw => Stop(InternalFailure)
      case Ok(firstMatch) =>
        if firstMatch == [] then Stop(Failed(UnknownUser, Some(NoUserFoundPage)))
        else Continue(Some(firstMatch))
  }

  /** A later rule keeps the matching candidates; none left stops with UNKNOWN_USER on the
      data-mismatch page. The candidates never grow. */
  function LaterRule(candidates: seq<UserModel>, userKey: string, matchValue: string, dir: UserDirectory): (s: Step)
    ensures s.Continue? ==> s.candidates.Some? && s.candidates.value != []
                            && IsSubsequence(s.candidates.value, candidates)
                            && |s.candidates.value| <= |candidates|
    ensures s == Stop(Failed(UnknownUser, Some(DataMismatchPage))) <==>
              Filter(candidates, userKey, matchValue, dir) == Ok([])
    ensures s == Stop(InternalFailure) <==> Filter(candidates, userKey, matchValue, dir).Threw?
    ensures s.Continue? ==> s.candidates == Some(Filter(candidates, userKey, matchValue, dir).value)
    ensures s.Stop? ==> s.outcome in {InternalFailure, Failed(UnknownUser, Some(DataMismatchPage))}
  {
    match Filter(candidates, userKey, matchValue, dir)
    case Threw => Stop(InternalFailure)
    case Ok(filteredMatch) =>
      if filteredMatch == [] then Stop(Failed(UnknownUser, Some(DataMismatchPage)))
      else
        SubsequenceShrinks(filteredMatch, candidates);
        Continue(Some(filteredMatch))
  }

  /**
   * One pass of the loop body: a blank entry is skipped; a malformed one stops with
   * INTERNAL_ERROR; a missing or empty IdP value stops with an inconclusive attempt; the
   * comparison value is the IdP value, or its hash when the rule says so (a hashing
   * failure stops with INTERNAL_ERROR); then the first rule looks users up and every
   * later one filters the candidates.
   */
  function StepEntry(e: Entry, candidates: Option<seq<UserModel>>, inputs: Inputs): (s: Step)
    ensures s.Stop? ==> s.outcome.Inconclusive? || s.outcome.Failed?
    ensures e.Blank? ==> s == Continue(candidates)
  {
    match e
    case Blank => Continue(candidates)
    case Malformed => Stop(InternalFailure)
    case Parsed(rule) =>
      var valueFromIdp := IdpValue(inputs.attributes, rule.idpKey);
      if valueFromIdp.None? || valueFromIdp.value == "" then Stop(Inconclusive)
      else
        var matchValue :=
          if rule.shouldHash then HashValue(inputs.hasher, valueFromIdp.value, inputs.salt)
          else valueFromIdp;
        if matchValue.None? then Stop(InternalFailure)
        else if candidates.None? then FirstRule(rule.userKey, matchValue.value, inputs.directory)
        else LaterRule(candidates.value, rule.userKey, matchValue.value, inputs.directory)
  }

  /** The loop over the entries from a given state: the first Stop ends it. */
  function Run(entries: seq<Entry>, candidates: Option<seq<UserModel>>, inputs: Inputs): (s: Step)
    ensures s.Stop? ==> s.outcome.Inconclusive? || s.outcome.Failed?
    decreases |entries|
  {
    if entries == [] then Continue(candidates)
    else
      match StepEntry(entries[0], candidates, inputs)
      case Stop(o) => Stop(o)
      case Continue(next) => Run(entries[1..], next, inputs)
  }

  /** Continuing a loop that has not stopped over further entries. */
  function Resume(s: Step, entries: seq<Entry>, inputs: Inputs): Step
  {
    match s
    case Stop(o) => Stop(o)
    case Continue(c) => Run(entries, c, inputs)
  }

  // ---------------------------------------------------------------------------
  // The decision and the whole evaluation

  /**
   * The final decision on the candidates: exactly one is linked, more than one fails
   * with INTERNAL_ERROR on the multiple-users page (never picking one), none fails with
   * UNKNOWN_USER on the no-user-found page.
   */
  function HandleMatchResult(users: seq<UserModel>): (o: Outcome)
    ensures o.Linked? <==> |users| == 1
    ensures o.Linked? ==> o.user == users[0]
    ensures |users| > 1 <==> o == Failed(InternalError, Some(MultipleUsersPage))
    ensures |users| == 0 <==> o == Failed(UnknownUser, Some(NoUserFoundPage))
  {
    if |users| == 1 then Linked(users[0])
    else if |users| > 1 then Failed(InternalError, Some(MultipleUsersPage))
    else Failed(UnknownUser, Some(NoUserFoundPage))
  }

  /** getSalt: the configured salt, then the environment's, then the fallback. */
  function GetSalt(config: Option<map<string, string>>, env: map<string, string>): (salt: string)
    ensures salt != ""
    ensures config.Some? && IsSet(Get(config.value, Privacy.ConfSaltKey)) ==>
              salt == config.value[Privacy.ConfSaltKey]
    ensures !(config.Some? && IsSet(Get(config.value, Privacy.ConfSaltKey))) ==>
              salt == Privacy.ResolveSalt(None, Get(env, Privacy.EnvSaltVar))
  {
    Privacy.ResolveSalt(if config.Some? then Get(config.value, Privacy.ConfSaltKey) else None,
                        Get(env, Privacy.EnvSaltVar))
  }

  /** The rule string split into entries. */
  function RuleEntries(rulesRaw: string): (entries: seq<string>)
    ensures forall k :: 0 <= k < |entries| ==> DelimiterFree(entries[k], EntrySeparators)
    ensures DelimiterFree(rulesRaw, EntrySeparators) ==> entries == [rulesRaw]
  {
    NoDelimsIffFree(rulesRaw, EntrySeparators);
    Split(rulesRaw, EntrySeparators)
  }

  /** Each entry as the loop classifies it when it reaches it (parsing reads nothing
      else, so classifying them all up front changes nothing). */
  function ParseAll(entries: seq<string>): seq<Entry>
  {
    seq(|entries|, k requires 0 <= k < |entries| => ParseEntry(entries[k]))
  }

  /**
   * authenticateImpl as a function of its inputs: without a configuration or a rule
   * string the attempt is inconclusive; otherwise the salt is resolved once, the entries
   * are evaluated in order, and a loop that does not stop is decided on its candidates
   * (no candidates at all when no entry held a rule).
   */
  function Authenticate(config: Option<map<string, string>>, env: map<string, string>,
                        attributes: map<string, seq<string>>, dir: UserDirectory,
                        hasher: Privacy.Hasher): (o: Outcome)
    ensures config.None? || ConfMatchingRules !in config.value ==> o == Inconclusive
  {
    if config.None? || ConfMatchingRules !in config.value then Inconclusive
    else
      var inputs := Inputs(attributes, dir, hasher, GetSalt(config, env));
      match Run(ParseAll(RuleEntries(config.value[ConfMatchingRules])), None, inputs)
      case Stop(o) => o
      case Continue(c) => HandleMatchResult(if c.Some? then c.value else [])
  }

  // ---------------------------------------------------------------------------
  // Properties of the evaluation

  /** Every entry is blank: the rule string holds no rule. */
  predicate AllBlank(entries: seq<Entry>)
  {
    forall k :: 0 <= k < |entries| ==> entries[k].Blank?
  }

  /** Whether user u passes entry e as a later rule: its first value of the rule's user
      key is the comparison value. Entries that stop the loop constrain nothing here. */
  predicate Satisfies(u: UserModel, e: Entry, inputs: Inputs)
  {
    match e
    case Parsed(rule) =>
      var valueFromIdp := IdpValue(inputs.attributes, rule.idpKey);
      if valueFromIdp.None? || valueFromIdp.value == "" then true
      else
        var matchValue :=
          if rule.shouldHash then HashValue(inputs.hasher, valueFromIdp.value, inputs.salt)
          else valueFromIdp;
        matchValue.None? || Matches(inputs.directory, u, rule.userKey, matchValue.value)
    case _ => true
  }

  /** User u passes every entry of entries. */
  predicate SatisfiesAll(u: UserModel, entries: seq<Entry>, inputs: Inputs)
  {
    forall k :: 0 <= k < |entries| ==> Satisfies(u, entries[k], inputs)
  }

  /** Running over a concatenation runs over the first part, then, unless it stopped,
      over the second. */
  lemma {:induction false} RunAppend(a: seq<Entry>, b: seq<Entry>, candidates: Option<seq<UserModel>>, inputs: Inputs)
    ensures Run(a + b, candidates, inputs) == Resume(Run(a, candidates, inputs), b, inputs)
    decreases |a|
  {
    if a == [] {
      assert a + b == b;
    } else {
      assert (a + b)[0] == a[0] && (a + b)[1..] == a[1..] + b;
      var step := StepEntry(a[0], candidates, inputs);
      if step.Continue? {
        RunAppend(a[1..], b, step.candidates, inputs);
      }
    }
  }

  /** Blank entries leave the state as it is. */
  lemma {:induction false} RunBlank(entries: seq<Entry>, candidates: Option<seq<UserModel>>, inputs: Inputs)
    requires AllBlank(entries)
    ensures Run(entries, candidates, inputs) == Continue(candidates)
    decreases |entries|
  {
    if entries != [] {
      assert entries[0].Blank?;
      RunBlank(entries[1..], candidates, inputs);
    }
  }

  /** Fail-fast: when the loop reaches entry k with state c and that entry stops it,
      the evaluation ends there with that entry's outcome; no later entry is read. */
  lemma StopsAt(entries: seq<Entry>, k: nat, candidates: Option<seq<UserModel>>, inputs: Inputs)
    requires k < |entries|
    requires Run(entries[..k], candidates, inputs).Continue?
    requires StepEntry(entries[k], Run(entries[..k], candidates, inputs).candidates, inputs).Stop?
    ensures Run(entries, candidates, inputs)
         == StepEntry(entries[k], Run(entries[..k], candidates, inputs).candidates, inputs)
  {
    var rest := entries[k..];
    assert entries == entries[..k] + rest;
    RunAppend(entries[..k], rest, candidates, inputs);
    assert rest[0] == entries[k];
  }

  /** A malformed entry ends the whole evaluation with INTERNAL_ERROR once the loop
      reaches it, whatever the earlier entries did to the candidates. */
  lemma MalformedEntryAborts(entries: seq<Entry>, k: nat, candidates: Option<seq<UserModel>>, inputs: Inputs)
    requires k < |entries| && entries[k] == Malformed
    requires Run(entries[..k], candidates, inputs).Continue?
    ensures Run(entries, candidates, inputs) == Stop(InternalFailure)
  {
    StopsAt(entries, k, candidates, inputs);
  }

  /** A rule whose IdP attribute is missing or empty ends the evaluation as an
      inconclusive attempt, even after earlier rules have narrowed the candidates. */
  lemma MissingAttributeIsInconclusive(entries: seq<Entry>, k: nat, candidates: Option<seq<UserModel>>, inputs: Inputs)
    requires k < |entries| && entries[k].Parsed?
    requires IdpValue(inputs.attributes, entries[k].rule.idpKey) in {None, Some("")}
    requires Run(entries[..k], candidates, inputs).Continue?
    ensures Run(entries, candidates, inputs) == Stop(Inconclusive)
  {
    StopsAt(entries, k, candidates, inputs);
  }

  /** A hashed rule whose digest cannot be computed ends the evaluation with INTERNAL_ERROR. */
  lemma HashFailureAborts(entries: seq<Entry>, k: nat, candidates: Option<seq<UserModel>>, inputs: Inputs)
    requires k < |entries| && entries[k].Parsed? && entries[k].rule.shouldHash
    requires IdpValue(inputs.attributes, entries[k].rule.idpKey).Some?
    requires IdpValue(inputs.attributes, entries[k].rule.idpKey).value != ""
    requires inputs.hasher.digest(IdpValue(inputs.attributes, entries[k].rule.idpKey).value + inputs.salt) == None
    requires Run(entries[..k], candidates, inputs).Continue?
    ensures Run(entries, candidates, inputs) == Stop(InternalFailure)
  {
    StopsAt(entries, k, candidates, inputs);
  }

  /** One later entry that does not stop keeps an order-preserving sub-list of the
      candidates, non-empty when they are, holding exactly the users that pass it. */
  lemma StepNarrows(e: Entry, c: seq<UserModel>, inputs: Inputs)
    requires StepEntry(e, Some(c), inputs).Continue?
    ensures var c1 := StepEntry(e, Some(c), inputs).candidates;
            && c1.Some?
            && IsSubsequence(c1.value, c)
            && (c != [] ==> c1.value != [])
            && forall u :: multiset(c1.value)[u] == if Satisfies(u, e, inputs) then multiset(c)[u] else 0
  {
    if e.Blank? {
      SubsequenceReflexive(c);
    }
  }

  /** Passing every entry is passing the first one and every later one. */
  lemma SatisfiesAllCons(u: UserModel, entries: seq<Entry>, inputs: Inputs)
    requires entries != []
    ensures SatisfiesAll(u, entries, inputs) <==> Satisfies(u, entries[0], inputs) && SatisfiesAll(u, entries[1..], inputs)
  {
    if Satisfies(u, entries[0], inputs) && SatisfiesAll(u, entries[1..], inputs) {
      forall k | 0 <= k < |entries| ensures Satisfies(u, entries[k], inputs) {
        if k > 0 {
          assert entries[k] == entries[1..][k - 1];
        }
      }
    }
    if SatisfiesAll(u, entries, inputs) {
      forall k | 0 <= k < |entries[1..]| ensures Satisfies(u, entries[1..][k], inputs) {
        assert entries[1..][k] == entries[k + 1];
      }
    }
  }

  /**
   * Later rules only narrow: from candidates c, a run that does not stop keeps an
   * order-preserving sub-list of c, non-empty when c is, holding each user exactly as
   * often as c does when it passes every entry and not at all otherwise.
   */
  lemma {:induction false} LaterRulesNarrow(entries: seq<Entry>, c: seq<UserModel>, inputs: Inputs)
    requires Run(entries, Some(c), inputs).Continue?
    ensures var r := Run(entries, Some(c), inputs).candidates;
            && r.Some?
            && IsSubsequence(r.value, c)
            && |r.value| <= |c|
            && (c != [] ==> r.value != [])
            && forall u :: multiset(r.value)[u] == if SatisfiesAll(u, entries, inputs) then multiset(c)[u] else 0
    decreases |entries|
  {
    if entries == [] {
      SubsequenceReflexive(c);
    } else {
      var e := entries[0];
      StepNarrows(e, c, inputs);
      var c1 := StepEntry(e, Some(c), inputs).candidates.value;
      LaterRulesNarrow(entries[1..], c1, inputs);
      var r := Run(entries, Some(c), inputs).candidates.value;
      assert r == Run(entries[1..], Some(c1), inputs).candidates.value;
      SubsequenceTransitive(r, c1, c);
      SubsequenceShrinks(r, c);
      forall u ensures multiset(r)[u] == if SatisfiesAll(u, entries, inputs) then multiset(c)[u] else 0 {
        SatisfiesAllCons(u, entries, inputs);
      }
    }
  }

  /** Position of the first entry that is not blank (the first rule), or |entries|. */
  function FirstRuleIndex(entries: seq<Entry>): (k: nat)
    ensures k <= |entries|
    ensures AllBlank(entries[..k])
    ensures k < |entries| ==> !entries[k].Blank?
  {
    if entries == [] then 0
    else if entries[0].Blank? then
      var k := FirstRuleIndex(entries[1..]);
      assert forall j :: 1 <= j < k + 1 ==> entries[j] == entries[1..][..k][j - 1];
      k + 1
    else 0
  }

  /**
   * From the start, the loop skips the blank entries before the first rule, looks users
   * up for that rule, and filters them with the rest; with no rule at all it ends
   * with no candidates, and otherwise with a non-empty list.
   */
  lemma RunFromStart(entries: seq<Entry>, inputs: Inputs)
    requires Run(entries, None, inputs).Continue?
    ensures var k := FirstRuleIndex(entries);
            && (k == |entries| <==> Run(entries, None, inputs).candidates.None?)
            && (k < |entries| ==>
                  && StepEntry(entries[k], None, inputs).Continue?
                  && StepEntry(entries[k], None, inputs).candidates.Some?
                  && Run(entries, None, inputs)
                     == Run(entries[k + 1..], StepEntry(entries[k], None, inputs).candidates, inputs))
    ensures Run(entries, None, inputs).candidates.Some? ==> Run(entries, None, inputs).candidates.value != []
  {
    var k := FirstRuleIndex(entries);
    SkipBlankPrefix(entries, inputs);
    if k < |entries| {
      RunFromRule(entries[k..], inputs);
      assert entries[k..][0] == entries[k] && entries[k..][1..] == entries[k + 1..];
      var first := StepEntry(entries[k], None, inputs);
      LaterRulesNarrow(entries[k + 1..], first.candidates.value, inputs);
    } else {
      assert entries[k..] == [];
    }
  }

  /** The blank entries before the first rule change nothing. */
  lemma SkipBlankPrefix(entries: seq<Entry>, inputs: Inputs)
    ensures Run(entries, None, inputs) == Run(entries[FirstRuleIndex(entries)..], None, inputs)
  {
    var k := FirstRuleIndex(entries);
    assert entries == entries[..k] + entries[k..];
    RunAppend(entries[..k], entries[k..], None, inputs);
    RunBlank(entries[..k], None, inputs);
  }

  /** A run whose first entry is a rule and that does not stop goes on from the non-empty
      candidates that rule found. */
  lemma RunFromRule(entries: seq<Entry>, inputs: Inputs)
    requires entries != [] && !entries[0].Blank?
    requires Run(entries, None, inputs).Continue?
    ensures StepEntry(entries[0], None, inputs).Continue?
    ensures StepEntry(entries[0], None, inputs).candidates.Some?
    ensures StepEntry(entries[0], None, inputs).candidates.value != []
    ensures Run(entries, None, inputs) == Run(entries[1..], StepEntry(entries[0], None, inputs).candidates, inputs)
  {
  }

  /** When the first rule stops the loop (nobody found, or any other early end), the
      evaluation ends with its outcome and no later rule is looked at. */
  lemma FirstRuleStopEndsRun(entries: seq<Entry>, inputs: Inputs)
    requires FirstRuleIndex(entries) < |entries|
    requires StepEntry(entries[FirstRuleIndex(entries)], None, inputs).Stop?
    ensures Run(entries, None, inputs) == StepEntry(entries[FirstRuleIndex(entries)], None, inputs)
  {
    var k := FirstRuleIndex(entries);
    RunBlank(entries[..k], None, inputs);
    StopsAt(entries, k, None, inputs);
  }

  /** A rule string without any rule never links a user: it fails with UNKNOWN_USER on
      the no-user-found page, without asking the directory. */
  lemma NoRulesNeverLinks(config: map<string, string>, env: map<string, string>,
                          attributes: map<string, seq<string>>, dir: UserDirectory, hasher: Privacy.Hasher)
    requires ConfMatchingRules in config
    requires forall k :: 0 <= k < |RuleEntries(config[ConfMatchingRules])| ==> IsBlank(RuleEntries(config[ConfMatchingRules])[k])
    ensures Authenticate(Some(config), env, attributes, dir, hasher) == Failed(UnknownUser, Some(NoUserFoundPage))
  {
    var entries := ParseAll(RuleEntries(config[ConfMatchingRules]));
    assert AllBlank(entries);
    RunBlank(entries, None, Inputs(attributes, dir, hasher, GetSalt(Some(config), env)));
  }

  /** An empty rule string is a single blank entry: the attempt fails with UNKNOWN_USER
      and is never a success. */
  lemma EmptyRulesNeverLink(config: map<string, string>, env: map<string, string>,
                            attributes: map<string, seq<string>>, dir: UserDirectory, hasher: Privacy.Hasher)
    requires ConfMatchingRules in config && config[ConfMatchingRules] == ""
    ensures Authenticate(Some(config), env, attributes, dir, hasher) == Failed(UnknownUser, Some(NoUserFoundPage))
  {
    assert CountDelims(config[ConfMatchingRules], EntrySeparators) == 0;
    assert RuleEntries(config[ConfMatchingRules]) == [""];
    NoRulesNeverLinks(config, env, attributes, dir, hasher);
  }

  /**
   * u is the only one of the first rule's candidates that passes every later rule,
   * and it occurs there once.
   */
  predicate UniqueSurvivor(entries: seq<Entry>, inputs: Inputs, u: UserModel)
  {
    var k := FirstRuleIndex(entries);
    && k < |entries|
    && StepEntry(entries[k], None, inputs).Continue?
    && StepEntry(entries[k], None, inputs).candidates.Some?
    && var first := StepEntry(entries[k], None, inputs).candidates.value;
       && multiset(first)[u] == 1
       && SatisfiesAll(u, entries[k + 1..], inputs)
       && forall v :: v in first && SatisfiesAll(v, entries[k + 1..], inputs) ==> v == u
  }

  /**
   * When the loop ends with the single candidate u, u is the only one of the first
   * rule's candidates that passes every later rule, and it occurs there once.
   */
  lemma SingleSurvivor(entries: seq<Entry>, inputs: Inputs, u: UserModel)
    requires Run(entries, None, inputs) == Continue(Some([u]))
    ensures UniqueSurvivor(entries, inputs, u)
  {
    RunFromStart(entries, inputs);
    var k := FirstRuleIndex(entries);
    var first := StepEntry(entries[k], None, inputs).candidates.value;
    LaterRulesNarrow(entries[k + 1..], first, inputs);
    assert multiset([u])[u] == 1;
    forall v | v in first && SatisfiesAll(v, entries[k + 1..], inputs) ensures v == u {
      assert multiset(first)[v] > 0;
      assert multiset([u])[v] > 0;
    }
  }

  /**
   * A linked user is the only one of the first rule's candidates that passes every
   * later rule, and it occurs there once: the authenticator never picks one user out of
   * several matches.
   */
  lemma LinkedIsUniqueSurvivor(config: map<string, string>, env: map<string, string>,
                               attributes: map<string, seq<string>>, dir: UserDirectory,
                               hasher: Privacy.Hasher, u: UserModel)
    requires Authenticate(Some(config), env, attributes, dir, hasher) == Linked(u)
    ensures ConfMatchingRules in config
    ensures UniqueSurvivor(ParseAll(RuleEntries(config[ConfMatchingRules])),
                           Inputs(attributes, dir, hasher, GetSalt(Some(config), env)), u)
  {
    var entries := ParseAll(RuleEntries(config[ConfMatchingRules]));
    var inputs := Inputs(attributes, dir, hasher, GetSalt(Some(config), env));
    var step := Run(entries, None, inputs);
    assert step.Continue? && step.candidates.Some?;
    var r := step.candidates.value;
    assert r == [u] by {
      assert |r| == 1 && r[0] == u;
    }
    SingleSurvivor(entries, inputs, u);
  }

  /** Conversely, a run that does not stop and has the unique survivor u ends with u as
      its one candidate. */
  lemma UniqueSurvivorRuns(entries: seq<Entry>, inputs: Inputs, u: UserModel)
    requires Run(entries, None, inputs).Continue?
    requires UniqueSurvivor(entries, inputs, u)
    ensures Run(entries, None, inputs) == Continue(Some([u]))
  {
    RunFromStart(entries, inputs);
    var k := FirstRuleIndex(entries);
    var first := StepEntry(entries[k], None, inputs).candidates.value;
    LaterRulesNarrow(entries[k + 1..], first, inputs);
    var r := Run(entries, None, inputs).candidates.value;
    assert r == Run(entries[k + 1..], Some(first), inputs).candidates.value;
    forall v ensures multiset(r)[v] == multiset([u])[v] {
      if v != u && SatisfiesAll(v, entries[k + 1..], inputs) {
        assert v !in first;
      }
    }
    assert multiset(r) == multiset([u]);
    assert |r| == 1;
    assert r[0] in multiset(r);
    assert r[0] == u;
    assert r == [u];
    assert Run(entries, None, inputs).candidates == Some(r);
  }

  /**
   * When the rules do not stop the loop and u is the only one of the first rule's
   * candidates that passes every later rule, occurring there once, the authenticator
   * links u.
   */
  lemma UniqueSurvivorIsLinked(config: map<string, string>, env: map<string, string>,
                               attributes: map<string, seq<string>>, dir: UserDirectory,
                               hasher: Privacy.Hasher, u: UserModel)
    requires ConfMatchingRules in config
    requires Run(ParseAll(RuleEntries(config[ConfMatchingRules])), None,
                 Inputs(attributes, dir, hasher, GetSalt(Some(config), env))).Continue?
    requires UniqueSurvivor(ParseAll(RuleEntries(config[ConfMatchingRules])),
                            Inputs(attributes, dir, hasher, GetSalt(Some(config), env)), u)
    ensures Authenticate(Some(config), env, attributes, dir, hasher) == Linked(u)
  {
    UniqueSurvivorRuns(ParseAll(RuleEntries(config[ConfMatchingRules])),
                       Inputs(attributes, dir, hasher, GetSalt(Some(config), env)), u);
  }

  // ---------------------------------------------------------------------------
  // The imperative loop

  /**
   * The body of the loop for one parsed rule, with its early returns: read the IdP
   * value, hash it when asked, then look users up (first rule) or filter the
   * candidates (later rules).
   */
  method MatchRule(rule: Rule, candidates: Option<seq<UserModel>>, inputs: Inputs) returns (step: Step)
    ensures step == StepEntry(Parsed(rule), candidates, inputs)
  {
    var valueFromIdp := IdpValue(inputs.attributes, rule.idpKey);
    if valueFromIdp.None? || valueFromIdp.value == "" {
      return Stop(Inconclusive);
    }
    var matchValue := valueFromIdp.value;
    if rule.shouldHash {
      var hashed := HashValue(inputs.hasher, valueFromIdp.value, inputs.salt);
      if hashed.None? {
        return Stop(InternalFailure);
      }
      matchValue := hashed.value;
    }

    var dir := inputs.directory;
    if candidates.None? {
      // Rule #1: ask the directory.
      var foundUser: Fallible<Option<UserModel>> := Ok(None);
      if EqualsIgnoreCase(EmailKey, rule.userKey) {
        foundUser := dir.getUserByEmail(matchValue);
      } else if EqualsIgnoreCase(UsernameKey, rule.userKey) {
        foundUser := dir.getUserByUsername(matchValue);
      }
      if foundUser.Threw? {
        return Stop(InternalFailure);
      }
      if foundUser.value.Some? {
        return Continue(Some([foundUser.value.value]));
      }
      var firstMatch := dir.searchForUserByUserAttribute(rule.userKey, matchValue);
      if firstMatch.Threw? {
        return Stop(InternalFailure);
      }
      if firstMatch.value == [] {
        return Stop(Failed(UnknownUser, Some(NoUserFoundPage)));
      }
      return Continue(Some(firstMatch.value));
    } else {
      // Rule #n: filter the previous candidates in memory.
      var filteredMatch := Filter(candidates.value, rule.userKey, matchValue, dir);
      if filteredMatch.Threw? {
        return Stop(InternalFailure);
      }
      if filteredMatch.value == [] {
        return Stop(Failed(UnknownUser, Some(DataMismatchPage)));
      }
      return Continue(Some(filteredMatch.value));
    }
  }

  /** The loop of authenticateImpl over the rule entries: blank entries are skipped, a
      malformed one or a rule that stops ends the loop, any other rule updates the
      candidates. */
  method EvaluateRules(ruleEntries: seq<string>, inputs: Inputs) returns (step: Step)
    ensures step == Run(ParseAll(ruleEntries), None, inputs)
  {
    ghost var entries := ParseAll(ruleEntries);
    var candidates: Option<seq<UserModel>> := None;
    var i := 0;
    while i < |ruleEntries|
      invariant 0 <= i <= |ruleEntries|
      invariant Run(entries, None, inputs) == Run(entries[i..], candidates, inputs)
    {
      var parsed := ParseEntry(ruleEntries[i]);
      assert entries[i..][0] == parsed && entries[i..][1..] == entries[i + 1..];
      if parsed.Blank? {
        i := i + 1;
        continue;
      }
      if parsed.Malformed? {
        return Stop(InternalFailure);
      }
      var next := MatchRule(parsed.rule, candidates, inputs);
      if next.Stop? {
        return next;
      }
      candidates := next.candidates;
      i := i + 1;
    }
    assert entries[i..] == [];
    step := Continue(candidates);
  }

  /**
   * authenticateImpl: the configuration guard, the salt, the loop, and the report of
   * its outcome on the flow context.
   */
  method AuthenticateImpl(context: AuthenticationFlowContext, config: Option<map<string, string>>,
                          env: map<string, string>, attributes: map<string, seq<string>>,
                          dir: UserDirectory, hasher: Privacy.Hasher)
    modifies context
    ensures context.Reports(Authenticate(config, env, attributes, dir, hasher),
                            old(context.user), old(context.authNotes))
  {
    if config.None? || ConfMatchingRules !in config.value {
      context.Attempted();
      return;
    }
    var salt := GetSalt(config, env);
    var rulesRaw := config.value[ConfMatchingRules];
    var ruleEntries := Split(rulesRaw, EntrySeparators);
    var step := EvaluateRules(ruleEntries, Inputs(attributes, dir, hasher, salt));
    match step
    case Stop(o) =>
      Report(context, o);
    case Continue(c) =>
      var matchedUsers := if c.Some? then c.value else [];
      Report(context, HandleMatchResult(matchedUsers));
  }
}
